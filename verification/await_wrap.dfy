/** The source text both await generations hand to the async-to-gen
    transformer, and index.js's test for a recoverable construction error.
    The transformer itself is a foreign parser and stays a parameter. */
module AwaitWrap {
  import opened Wrappers
  import opened Chars
  import opened Strings
  import AwaitMatch

  /** The text before the embedded expression. */
  const Head: string := "(async function() {\n      let result = ("
  /** The text between the expression and the final statement. */
  const Mid: string := ");\n      "
  /** The text after the final statement. */
  const Tail: string := "\n    }())"
  /** The final statement when there is no binder. */
  const ReturnResult: string := "return result"
  /** What precedes the binder in the assigning final statement. */
  const GlobalPrefix: string := "global."
  /** What follows the binder in the assigning final statement. */
  const AssignSuffix: string := " = result"

  /** JavaScript truthiness of group 1: absent and empty are both false. */
  predicate Truthy(binder: Option<string>)
  {
    binder.Some? && binder.value != ""
  }

  /** The statement that ends the function: assign the global `binder` when
      one was captured, return the result otherwise. */
  function FinalStatement(binder: Option<string>): string
  {
    if Truthy(binder) then GlobalPrefix + binder.value + AssignSuffix else ReturnResult
  }

  /** The asynchronous function expression around `code`: it stores the
      awaited value in the global `binder` when one is given, and returns it
      otherwise. */
  function Template(code: string, binder: Option<string>): string
  {
    Head + (code + Mid + FinalStatement(binder)) + Tail
  }

  /** Reads back what a template was built from; `None` when the text is not
      one `Template` can build with an identifier as binder. */
  function Unwrap(t: string): Option<(string, Option<string>)>
  {
    if |t| < |Head| + |Tail| || !(Head <= t) || !EndsWith(t, Tail) then None
    else UnwrapBody(t[|Head|..|t| - |Tail|])
  }

  /** Reads back the expression and the binder from the function body. */
  function UnwrapBody(middle: string): Option<(string, Option<string>)>
  {
    if EndsWith(middle, Mid + ReturnResult) then
      Some((middle[..|middle| - |Mid + ReturnResult|], None))
    else if EndsWith(middle, AssignSuffix) then
      var pre := middle[..|middle| - |AssignSuffix|];
      var k := RunStart(pre, IsIdentPart);
      var rest := pre[..k];
      if k < |pre| && EndsWith(rest, Mid + GlobalPrefix) then
        Some((rest[..|rest| - |Mid + GlobalPrefix|], Some(pre[k..])))
      else None
    else None
  }

  /** The template is injective: the embedded code and the identifier binder
      can be read back from it, and whether it assigns a global or returns is
      decided by whether a binder was given. */
  lemma UnwrapTemplate(code: string, binder: Option<string>)
    requires binder.Some? ==> AwaitMatch.IsIdentifier(binder.value)
    ensures Unwrap(Template(code, binder)) == Some((code, binder))
  {
    UnwrapFrame(code + Mid + FinalStatement(binder));
    if binder.Some? {
      UnwrapAssign(code, binder.value);
    } else {
      UnwrapReturn(code);
    }
  }

  /** `Unwrap` strips the fixed head and tail. */
  lemma UnwrapFrame(middle: string)
    ensures Unwrap(Head + middle + Tail) == UnwrapBody(middle)
  {
    var t := Head + middle + Tail;
    assert t[..|Head|] == Head;
    assert t[|t| - |Tail|..] == Tail;
    assert t[|Head|..|t| - |Tail|] == middle;
  }

  /** A body that returns reads back with no binder. */
  lemma UnwrapReturn(code: string)
    ensures UnwrapBody(code + Mid + ReturnResult) == Some((code, None))
  {
    var middle := code + Mid + ReturnResult;
    assert middle == code + (Mid + ReturnResult);
    assert middle[|middle| - |Mid + ReturnResult|..] == Mid + ReturnResult;
    assert middle[..|middle| - |Mid + ReturnResult|] == code;
  }

  /** A body that assigns an identifier reads back with that binder. */
  lemma UnwrapAssign(code: string, b: string)
    requires AwaitMatch.IsIdentifier(b)
    ensures UnwrapBody(code + Mid + (GlobalPrefix + b + AssignSuffix)) == Some((code, Some(b)))
  {
    var pre := code + Mid + GlobalPrefix + b;
    Rebracket(code, Mid, GlobalPrefix, b, AssignSuffix);
    AssignIsNotReturn(pre);
    UnwrapAssignName(code, b);
  }

  /** Moving the brackets of a five-part concatenation to its last part. */
  lemma Rebracket(c: string, m: string, g: string, b: string, a: string)
    ensures c + m + (g + b + a) == (c + m + g + b) + a
  {
  }

  /** An assigning body does not end like a returning one. */
  lemma AssignIsNotReturn(pre: string)
    ensures !EndsWith(pre + AssignSuffix, Mid + ReturnResult)
    ensures EndsWith(pre + AssignSuffix, AssignSuffix)
    ensures (pre + AssignSuffix)[..|pre|] == pre
  {
    var middle := pre + AssignSuffix;
    assert middle[|middle| - 8] == '=';
    EndsWithChar(middle, Mid + ReturnResult, 14);
    assert (Mid + ReturnResult)[14] == 'n';
    assert middle[|middle| - |AssignSuffix|..] == AssignSuffix;
  }

  /** The binder is the identifier run that ends the assignment target. */
  lemma UnwrapAssignName(code: string, b: string)
    requires AwaitMatch.IsIdentifier(b)
    ensures var pre := code + Mid + GlobalPrefix + b;
      && RunStart(pre, IsIdentPart) == |pre| - |b|
      && pre[|pre| - |b|..] == b
      && pre[..|pre| - |b|] == code + (Mid + GlobalPrefix)
  {
    var pre := code + Mid + GlobalPrefix + b;
    assert All(pre, |pre| - |b|, |pre|, IsIdentPart) by {
      forall i | |pre| - |b| <= i < |pre| ensures IsIdentPart(pre[i]) {
        assert pre[i] == b[i - (|pre| - |b|)];
        assert i - (|pre| - |b|) == 0 || IsIdentPart(b[i - (|pre| - |b|)]);
      }
    }
    assert pre[|pre| - |b| - 1] == '.';
    RunStartUnique(pre, |pre| - |b|, IsIdentPart);
    assert pre[..|pre| - |b|] == code + (Mid + GlobalPrefix);
  }

  /** `wrap` in index.js: the template around the trimmed expression, run
      through the transformer, whose output is trimmed; a transformer failure
      is the error `wrap` throws. */
  function Wrap(code: string, binder: Option<string>, asyncToGen: string -> Result<string, JsError>): (r: Result<string, JsError>)
    ensures r.Ok? ==> Trim(r.value) == r.value
  {
    match asyncToGen(Template(Trim(code), binder))
    case Ok(out) =>
      TrimIdempotent(out);
      Ok(Trim(out))
    case Err(e) => Err(e)
  }

  /** `wrapper` in repl.js: the template around the expression as captured,
      untrimmed, run through the transformer; its output is not trimmed. */
  function Wrapper(code: string, binder: Option<string>, asyncToGen: string -> Result<string, JsError>): Result<string, JsError>
  {
    asyncToGen(Template(code, binder))
  }

  /** How the template is laid out: the code follows the head verbatim, and
      the text ends by assigning the global binder exactly when the binder is
      truthy, and by returning the result otherwise. */
  lemma TemplateLayout(code: string, binder: Option<string>)
    ensures Head + code <= Template(code, binder)
    ensures Truthy(binder) ==> EndsWith(Template(code, binder), Mid + GlobalPrefix + binder.value + AssignSuffix + Tail)
    ensures !Truthy(binder) ==> EndsWith(Template(code, binder), Mid + ReturnResult + Tail)
    ensures EndsWith(Template(code, binder), AssignSuffix + Tail) <==> Truthy(binder)
  {
    var f := FinalStatement(binder);
    Regroup(Head, code, Mid, f, Tail);
    Glued(Head + code, Mid + f + Tail);
    if Truthy(binder) {
      AssignEnding(Head + code, binder.value);
    } else {
      ReturnEnding(Head + code);
    }
  }

  /** An assigning template ends with the assignment and its suffix. */
  lemma AssignEnding(front: string, b: string)
    ensures var t := front + (Mid + (GlobalPrefix + b + AssignSuffix) + Tail);
      EndsWith(t, Mid + GlobalPrefix + b + AssignSuffix + Tail) && EndsWith(t, AssignSuffix + Tail)
  {
    SuffixChain(front, Mid + GlobalPrefix + b, AssignSuffix, Tail);
  }

  /** A concatenation ends with its last two parts and with its last three. */
  lemma SuffixChain(f: string, x: string, y: string, z: string)
    ensures EndsWith(f + (x + y + z), x + y + z)
    ensures EndsWith(f + (x + y + z), y + z)
  {
    Glued(f, x + y + z);
    assert f + (x + y + z) == (f + x) + (y + z);
    Glued(f + x, y + z);
  }

  /** A returning template does not end like an assigning one. */
  lemma ReturnEnding(front: string)
    ensures var t := front + (Mid + ReturnResult + Tail);
      EndsWith(t, Mid + ReturnResult + Tail) && !EndsWith(t, AssignSuffix + Tail)
  {
    var x := Mid + ReturnResult + Tail;
    var t := front + x;
    Glued(front, x);
    EndsWithChar(t, AssignSuffix + Tail, 0);
    EndsWithChar(t, x, |x| - |AssignSuffix + Tail|);
    assert x[|x| - |AssignSuffix + Tail|] == 'r';
  }

  /** Regrouping a five-part concatenation around its second part. */
  lemma Regroup(h: string, c: string, m: string, f: string, t: string)
    ensures h + (c + m + f) + t == (h + c) + (m + f + t)
    ensures h + (c + m + f) + t == (h + c + m) + (f + t)
  {
  }

  /** A concatenation starts with its first part and ends with its second. */
  lemma Glued(x: string, y: string)
    ensures x <= x + y && EndsWith(x + y, y)
  {
    assert (x + y)[..|x|] == x;
    assert (x + y)[|x|..] == y;
  }

  /** `wrap` in index.js is `wrapper` of repl.js applied to the trimmed
      expression, with the transformer's output trimmed as well. */
  lemma WrapIsTrimmedWrapper(code: string, binder: Option<string>, asyncToGen: string -> Result<string, JsError>)
    ensures Wrap(code, binder, asyncToGen) ==
      match Wrapper(Trim(code), binder, asyncToGen)
      case Ok(out) => Ok(Trim(out))
      case Err(e) => Err(e)
  {
  }

  /** `wrapper` cannot be read back: a repl.js binder is any text without `=`,
      so one that itself closes the expression and starts another assignment
      builds the same source as a longer expression with a shorter binder. */
  lemma WrapperTemplateCollides(code: string, b: string, z: string, asyncToGen: string -> Result<string, JsError>)
    requires b != "" && z != ""
    ensures var binder := b + Mid + GlobalPrefix + z;
      && (code, Some(binder)) != (code + Mid + GlobalPrefix + b, Some(z))
      && Template(code, Some(binder)) == Template(code + Mid + GlobalPrefix + b, Some(z))
      && Wrapper(code, Some(binder), asyncToGen) == Wrapper(code + Mid + GlobalPrefix + b, Some(z), asyncToGen)
  {
    var binder := b + Mid + GlobalPrefix + z;
    assert FinalStatement(Some(binder)) == GlobalPrefix + binder + AssignSuffix;
    assert FinalStatement(Some(z)) == GlobalPrefix + z + AssignSuffix;
    SharedSource(Head, code, Mid, GlobalPrefix, b, z, AssignSuffix, Tail);
  }

  /** The regrouping behind `WrapperTemplateCollides`, over arbitrary parts. */
  lemma SharedSource(h: string, c: string, m: string, g: string, b: string, z: string, a: string, t: string)
    ensures h + (c + m + (g + (b + m + g + z) + a)) + t == h + ((c + m + g + b) + m + (g + z + a)) + t
  {
  }

  /** `isRecoverableError` in index.js: a syntax error whose message starts
      with `Unexpected end of input` or `Unexpected token`. */
  predicate IsRecoverableError(e: JsError)
  {
    e.name == "SyntaxError"
    && ("Unexpected end of input" <= e.message || "Unexpected token" <= e.message)
  }

  /** Only a syntax error can be recoverable, and only by the prefix of its
      message: the test is anchored at the start of the message, so the phrase
      later in the message does not count. */
  lemma RecoverableExamples(incomplete: JsError, token: JsError, invalid: JsError, other: JsError)
    requires incomplete == JsError("SyntaxError", "Unexpected end of input")
    requires token == JsError("SyntaxError", "Unexpected token )")
    requires invalid == JsError("SyntaxError", "Invalid: Unexpected token")
    requires other == JsError("ReferenceError", "Unexpected token")
    ensures IsRecoverableError(incomplete) && IsRecoverableError(token)
    ensures Contains(invalid.message, "Unexpected token") && !IsRecoverableError(invalid)
    ensures !IsRecoverableError(other)
    ensures forall e: JsError :: e.name != "SyntaxError" ==> !IsRecoverableError(e)
  {
    assert "Unexpected end of input" <= incomplete.message;
    assert "Unexpected token" <= token.message;
    assert OccursAt(invalid.message, "Unexpected token", 9);
    assert invalid.message[0] == 'I';
  }
}
