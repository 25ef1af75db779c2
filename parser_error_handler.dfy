/**
 * me.neilellis.dollar.script.ParserErrorHandler: the first generation's
 * error routing. Three flags, fixed at construction, decide whether an
 * error is thrown on, turned into a failure value or (for a fault-tolerant
 * handler) swallowed as void.
 */
module ParserErrorHandler {
  import opened Results

  const RECURSION_MESSAGE: string :=
    "Excessive recursion detected, this is usually due to a recursive definition of lazily defined expressions. "
    + "The simplest way to solve this is to use the 'fix' operator or the '=' operator to reduce the amount of "
    + "lazy evaluation. The error occured at "

  datatype Kind =
    | AssertionError
    | DollarScriptException
    | VariableNotFoundException   // a DollarScriptException
    | DollarParserException
    | LambdaRecursionException
    | InvocationTargetException
    | NullPointerException
    | OtherException(name: string)

  datatype Throwable = Throwable(kind: Kind, message: string, cause: Option<Throwable>)

  datatype Handler = Handler(missingVariables: bool, failfast: bool, faultTolerant: bool)

  /** What a handle call does: throw, return a failure value, or return void. */
  datatype Outcome = Throws(thrown: Throwable) | FailureValue(failure: Throwable) | VoidValue

  /** The no-argument constructor: missing variables are errors, fail fast, not fault tolerant. */
  function Default(): (h: Handler)
    ensures h.missingVariables && h.failfast && !h.faultTolerant
  {
    Handler(true, true, false)
  }

  /** An assertion is rewrapped with its source and thrown, unless the handler is fault tolerant. */
  function HandleAssertion(h: Handler, source: string, e: Throwable): (r: Outcome)
    ensures r.Throws? <==> !h.faultTolerant
    ensures r.FailureValue? <==> h.faultTolerant
    ensures var t := if r.Throws? then r.thrown else r.failure;
            t == Throwable(AssertionError, e.message + " at " + source, Some(e))
  {
    var throwable := Throwable(AssertionError, e.message + " at " + source, Some(e));
    if !h.faultTolerant then Throws(throwable) else FailureValue(throwable)
  }

  /** A script exception is thrown as a parser exception when it is a missing variable that counts, or when failing fast. */
  function HandleScript(h: Handler, source: string, e: Throwable): (r: Outcome)
    ensures r.Throws? <==> (e.kind == VariableNotFoundException && h.missingVariables) || h.failfast
    ensures r.FailureValue? <==> !r.Throws?
    ensures var t := if r.Throws? then r.thrown else r.failure;
            t == Throwable(DollarParserException, e.message + " at " + source, Some(e))
  {
    var throwable := Throwable(DollarParserException, e.message + " at " + source, Some(e));
    if (e.kind == VariableNotFoundException && h.missingVariables) || h.failfast then Throws(throwable)
    else FailureValue(throwable)
  }

  /** unravel: the cause of an InvocationTargetException (which may be null), any other exception itself. */
  function Unravel(e: Throwable): (r: Option<Throwable>)
    ensures e.kind == InvocationTargetException ==> r == e.cause
    ensures e.kind != InvocationTargetException ==> r == Some(e)
    ensures r.Some? && r.value != e ==> e.kind == InvocationTargetException && r.value < e
  {
    if e.kind == InvocationTargetException then e.cause else Some(e)
  }

  /**
   * Any other exception: recursion is always thrown on; otherwise the
   * unravelled exception is wrapped and thrown when failing fast, swallowed
   * as void when fault tolerant, and returned as a failure otherwise. A
   * wrapper without a cause has no message to read.
   */
  function HandleException(h: Handler, source: string, e: Throwable): (r: Outcome)
    ensures e.kind == LambdaRecursionException ==> r == Throws(Throwable(DollarParserException, RECURSION_MESSAGE + source, None))
    ensures e.kind != LambdaRecursionException && Unravel(e).None? ==> r.Throws? && r.thrown.kind == NullPointerException
    ensures e.kind != LambdaRecursionException && Unravel(e).Some? ==>
              var wrapped := Throwable(DollarParserException, Unravel(e).value.message + " at " + source, Unravel(e));
              (h.failfast ==> r == Throws(wrapped))
              && (!h.failfast && h.faultTolerant ==> r == VoidValue)
              && (!h.failfast && !h.faultTolerant ==> r == FailureValue(wrapped))
  {
    if e.kind == LambdaRecursionException then Throws(Throwable(DollarParserException, RECURSION_MESSAGE + source, None))
    else
      var cause := Unravel(e);
      if cause.None? then Throws(Throwable(NullPointerException, "", None))
      else
        var throwable := Throwable(DollarParserException, cause.value.message + " at " + source, cause);
        if h.failfast then Throws(throwable)
        else if h.faultTolerant then VoidValue
        else FailureValue(throwable)
  }

  /** The order of the generic branches: only a handler neither failing fast nor fault tolerant yields a failure value. */
  lemma GenericOrder(h: Handler, source: string, e: Throwable)
    requires e.kind != LambdaRecursionException && Unravel(e).Some?
    ensures HandleException(h, source, e).Throws? <==> h.failfast
    ensures HandleException(h, source, e).VoidValue? <==> !h.failfast && h.faultTolerant
    ensures HandleException(h, source, e).FailureValue? <==> !h.failfast && !h.faultTolerant
  {
  }

  /** Under the defaults every error reaching a handler is thrown on. */
  lemma DefaultsThrowEverything(source: string, e: Throwable)
    ensures HandleAssertion(Default(), source, e).Throws?
    ensures HandleScript(Default(), source, e).Throws?
    ensures HandleException(Default(), source, e).Throws?
  {
  }

  /** What handleTopLevel does with a throwable: the lines it prints to standard error, and what it rethrows. */
  datatype TopLevel = TopLevel(printed: seq<string>, rethrown: Option<Throwable>)

  predicate IsScriptException(t: Throwable)
  {
    t.kind == DollarScriptException || t.kind == VariableNotFoundException
  }

  /**
   * handleTopLevel: an assertion, a parser exception and a script exception
   * each have their message printed; everything but a script exception is
   * then rethrown.
   */
  function HandleTopLevel(t: Throwable): (r: TopLevel)
    ensures r.rethrown.None? <==> IsScriptException(t)
    ensures r.rethrown.Some? ==> r.rethrown.value == t
    ensures r.printed == [] || r.printed == [t.message]
    ensures r.printed == [] <==> !IsScriptException(t) && t.kind != AssertionError && t.kind != DollarParserException
  {
    var printed := if t.kind == AssertionError || t.kind == DollarParserException || IsScriptException(t)
                   then [t.message] else [];
    TopLevel(printed, if IsScriptException(t) then None else Some(t))
  }

  /**
   * Nothing reaching the top level is lost: it is printed or rethrown, and
   * only a script exception stops there; assertions and parser exceptions
   * are both printed and rethrown.
   */
  lemma TopLevelRethrows(t: Throwable)
    ensures HandleTopLevel(t).printed != [] || HandleTopLevel(t).rethrown.Some?
    ensures t.kind == AssertionError || t.kind == DollarParserException ==>
              HandleTopLevel(t).printed == [t.message] && HandleTopLevel(t).rethrown == Some(t)
    ensures IsScriptException(t) ==> HandleTopLevel(t).printed == [t.message] && HandleTopLevel(t).rethrown.None?
  {
  }
}
