/** The evaluator that `addAwaitEval` installs, in both generations. The
    original evaluator, `vm.runInContext` and the promise it returns are
    collaborators: a step names what is handed to them instead of running it. */
module AwaitEval {
  import opened Wrappers
  import opened Strings
  import AwaitMatch
  import LegacyAwaitMatch
  import opened AwaitWrap

  /** What reaches the shell's callback when the wrapper cannot be built. */
  datatype ReplError =
    | Recoverable(error: JsError)   // `new repl.Recoverable(e)`: the shell waits for more input
    | Plain(error: JsError)         // the error itself: the shell reports it

  /** The one thing an evaluation turn does. */
  datatype Step<C, K> =
    | Delegate(cmd: string, context: C, filename: string, callback: K)  // the previous evaluator, same arguments
    | Report(failure: ReplError, callback: K)                           // `callback(failure)`; no code runs
    | Run(code: string, context: C, callback: K)                        // `vm.runInContext(code, …)`, settled into `callback`
    | Throw(error: JsError)                                             // the exception escapes the evaluator

  /** The evaluator of index.js. A line the await pattern rejects goes to the
      previous evaluator untouched; otherwise the wrapper is built, and a
      failure to build it is reported, as recoverable when `isRecoverableError`
      says so. It never throws. */
  function Eval<C, K>(cmd: string, context: C, filename: string, callback: K,
                      asyncToGen: string -> Result<string, JsError>): (r: Step<C, K>)
    ensures !r.Throw?
  {
    match AwaitMatch.Classify(cmd)
    case None => Delegate(cmd, context, filename, callback)
    case Some(m) =>
      match Wrap(m.expr, m.binder, asyncToGen)
      case Err(e) => Report(if IsRecoverableError(e) then Recoverable(e) else Plain(e), callback)
      case Ok(code) => Run(code, context, callback)
  }

  /** Exactly the lines the await pattern cannot match are delegated, and
      they are delegated with every argument unchanged. */
  lemma EvalDelegatesExactlyUnmatched<C, K>(cmd: string, context: C, filename: string, callback: K,
                                           asyncToGen: string -> Result<string, JsError>)
    ensures Eval(cmd, context, filename, callback, asyncToGen).Delegate? <==>
      && (forall a, b, c, d :: !AwaitMatch.GroupSplit(cmd, a, b, c, d))
      && (forall a :: !AwaitMatch.BareSplit(cmd, a))
    ensures Eval(cmd, context, filename, callback, asyncToGen).Delegate? ==>
      Eval(cmd, context, filename, callback, asyncToGen) == Delegate(cmd, context, filename, callback)
  {
    AwaitMatch.ClassifySound(cmd);
  }

  /** A line with a binder runs the transformed template that assigns the
      awaited value to that global; the template holds the trimmed expression
      and the binder, which can be read back from it. */
  lemma EvalBinds<C, K>(cmd: string, context: C, filename: string, callback: K,
                        asyncToGen: string -> Result<string, JsError>, a: int, b: int, c: int, d: int)
    requires AwaitMatch.GroupSplit(cmd, a, b, c, d)
    ensures var source := Template(Trim(cmd[d..]), Some(cmd[a..b]));
      && Unwrap(source) == Some((Trim(cmd[d..]), Some(cmd[a..b])))
      && Eval(cmd, context, filename, callback, asyncToGen) ==
           match asyncToGen(source)
           case Ok(out) => Run(Trim(out), context, callback)
           case Err(e) => Report(if IsRecoverableError(e) then Recoverable(e) else Plain(e), callback)
  {
    AwaitMatch.GroupSplitDecides(cmd, a, b, c, d);
    UnwrapTemplate(Trim(cmd[d..]), Some(cmd[a..b]));
  }

  /** A line that can only match without a binder runs the transformed
      template that returns the awaited value, around the trimmed rest of the
      line from `await`. */
  lemma EvalReturns<C, K>(cmd: string, context: C, filename: string, callback: K,
                          asyncToGen: string -> Result<string, JsError>, a: int)
    requires AwaitMatch.BareSplit(cmd, a)
    requires forall a', b, c, d :: !AwaitMatch.GroupSplit(cmd, a', b, c, d)
    ensures var source := Template(Trim(cmd[a..]), None);
      && Unwrap(source) == Some((Trim(cmd[a..]), None))
      && Eval(cmd, context, filename, callback, asyncToGen) ==
           match asyncToGen(source)
           case Ok(out) => Run(Trim(out), context, callback)
           case Err(e) => Report(if IsRecoverableError(e) then Recoverable(e) else Plain(e), callback)
  {
    AwaitMatch.BareSplitDecides(cmd, a);
    UnwrapTemplate(Trim(cmd[a..]), None);
  }

  /** When the wrapper cannot be built, the error goes to the callback, wrapped
      as recoverable exactly when it is a syntax error about an unexpected end
      of input or an unexpected token, and no code runs. */
  lemma EvalReportsBuildFailure<C, K>(cmd: string, context: C, filename: string, callback: K,
                                      asyncToGen: string -> Result<string, JsError>, e: JsError)
    requires AwaitMatch.Classify(cmd).Some?
    requires var m := AwaitMatch.Classify(cmd).value; asyncToGen(Template(Trim(m.expr), m.binder)) == Err(e)
    ensures var r := Eval(cmd, context, filename, callback, asyncToGen);
      && r.Report? && r.callback == callback && r.failure.error == e
      && (r.failure.Recoverable? <==>
            e.name == "SyntaxError"
            && ("Unexpected end of input" <= e.message || "Unexpected token" <= e.message))
  {
  }

  /** A declaration such as the incomplete `let x = await foo(` is not taken
      for a suspending line at all, whatever follows the `=`: it goes to the
      previous evaluator, never to the recoverable-error report. */
  lemma EvalDelegatesDeclaration<C, K>(cmd: string, rest: string, context: C, filename: string, callback: K,
                                       asyncToGen: string -> Result<string, JsError>)
    requires cmd == "let x = " + rest
    ensures Eval(cmd, context, filename, callback, asyncToGen) == Delegate(cmd, context, filename, callback)
  {
    AwaitMatch.ClassifyRejectsDeclaration(cmd, rest);
  }

  /** The evaluator of repl.js. Unmatched lines go to the previous evaluator;
      matched ones run the transformed template around the untrimmed
      expression, and a transformer failure escapes as an exception: this
      generation never reports a recoverable error. */
  function LegacyEval<C, K>(cmd: string, context: C, filename: string, callback: K,
                            asyncToGen: string -> Result<string, JsError>): (r: Step<C, K>)
    ensures !r.Report?
  {
    match LegacyAwaitMatch.Classify(cmd)
    case None => Delegate(cmd, context, filename, callback)
    case Some(m) =>
      match Wrapper(m.expr, m.binder, asyncToGen)
      case Err(e) => Throw(e)
      case Ok(code) => Run(code, context, callback)
  }

  /** Exactly the lines neither alternative of the older pattern can match are
      delegated, with every argument unchanged. */
  lemma LegacyEvalDelegatesExactlyUnmatched<C, K>(cmd: string, context: C, filename: string, callback: K,
                                                 asyncToGen: string -> Result<string, JsError>)
    ensures LegacyEval(cmd, context, filename, callback, asyncToGen).Delegate? <==>
      && (forall cut :: !LegacyAwaitMatch.Valid(cmd, cut))
      && (forall a :: !AwaitMatch.BareSplit(cmd, a))
    ensures LegacyEval(cmd, context, filename, callback, asyncToGen).Delegate? ==>
      LegacyEval(cmd, context, filename, callback, asyncToGen) == Delegate(cmd, context, filename, callback)
  {
    LegacyAwaitMatch.ClassifySound(cmd);
  }

  /** In the older generation an incomplete declaration is wrapped with the
      binder `"x "`, and the transformer's syntax error escapes as an
      exception instead of asking for more input. */
  lemma LegacyEvalThrowsOnIncomplete<C, K>(cmd: string, context: C, filename: string, callback: K,
                                          asyncToGen: string -> Result<string, JsError>, e: JsError)
    requires cmd == "let x = await foo("
    requires asyncToGen(Template("await foo(", Some("x "))) == Err(e)
    ensures LegacyEval(cmd, context, filename, callback, asyncToGen) == Throw(e)
  {
    LegacyAwaitMatch.ClassifyDeclaration(cmd, "await foo(");
  }
}
