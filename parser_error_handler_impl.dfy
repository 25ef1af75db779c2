/**
 * dollar.internal.runtime.script.ParserErrorHandlerImpl: the later
 * generation's error routing. Errors go to the scope's error handler or
 * become failure values; only recursion and sourced Dollar exceptions in
 * the generic handler are thrown on, besides what building a source
 * message throws.
 */
module ParserErrorHandlerImpl {
  import opened Results
  import ParserErrorHandler
  import SourceSegment

  datatype Kind =
    | DollarAssertionException
    | VariableNotFoundException
    | DollarScriptException
    | DollarParserError
    | LambdaRecursionException
    | InvocationTargetException
    | OtherException(name: string)
    | AssertionError                    // thrown by getSourceMessage
    | StringIndexOutOfBoundsException   // thrown by getSourceMessage

  /** The kinds that are DollarExceptions. */
  predicate IsDollarException(k: Kind)
  {
    k == DollarAssertionException || k == VariableNotFoundException || k == DollarScriptException || k == DollarParserError
  }

  /** A source segment: its printed form and the segment itself, whose source message may throw. */
  datatype Segment = Segment(shown: string, segment: SourceSegment.Segment)

  /** The exception getSourceMessage throws, as a throwable (its message is not modelled). */
  function MessageFailure(f: SourceSegment.Failure): Throwable
  {
    match f
    case AssertionError => Throwable(AssertionError, "", None, [])
    case StringIndexOutOfBounds => Throwable(StringIndexOutOfBoundsException, "", None, [])
    case DollarParserError => Throwable(DollarParserError, "", None, [])
  }

  datatype Throwable = Throwable(kind: Kind, message: string, cause: Option<Throwable>, sources: seq<Segment>)

  datatype Handler = Handler(missingVariables: bool, failfast: bool, faultTolerant: bool)

  /**
   * What a handle call does: pass the throwable to the scope's error
   * handler, return a failure value (of the EXCEPTION error type or not,
   * with a source or not), or throw.
   */
  datatype Outcome =
    | ScopeHandled(handled: Throwable)
    | FailureValue(failure: Option<Throwable>, exceptionType: bool, source: Option<Segment>)
    | Throws(thrown: Throwable)

  /** The no-argument constructor: missing variables are errors, fail fast, not fault tolerant. */
  function Default(): (h: Handler)
    ensures h.missingVariables && h.failfast && !h.faultTolerant
  {
    Handler(true, true, false)
  }

  /** An assertion goes to the scope's handler unless the handler is fault tolerant. */
  function HandleAssertion(h: Handler, e: Throwable): (r: Outcome)
    ensures r.ScopeHandled? <==> !h.faultTolerant
    ensures r.ScopeHandled? ==> r.handled == e
    ensures r.FailureValue? <==> h.faultTolerant
    ensures r.FailureValue? ==> r == FailureValue(Some(e), false, None)
  {
    if !h.faultTolerant then ScopeHandled(e) else FailureValue(Some(e), false, None)
  }

  /**
   * A Dollar exception, wrapped with the source message when there is a
   * source, goes to the scope's handler when it is a missing variable that
   * counts or when failing fast; otherwise it becomes a failure value. The
   * source message is built first: when it throws, that exception escapes
   * instead, whatever the flags.
   */
  function HandleDollar(h: Handler, source: Option<Segment>, e: Throwable): (r: Outcome)
    ensures r.Throws? <==> source.Some? && SourceSegment.SourceMessage(source.value.segment).Err?
    ensures r.Throws? ==> r.thrown == MessageFailure(SourceSegment.SourceMessage(source.value.segment).error)
    ensures !r.Throws? ==>
              (r.ScopeHandled? <==> (e.kind == VariableNotFoundException && h.missingVariables) || h.failfast)
    ensures r.FailureValue? ==> r.failure.Some? && !r.exceptionType && r.source.None?
    ensures !r.Throws? ==>
              var t := if r.ScopeHandled? then r.handled else r.failure.value;
              (source.None? ==> t == e)
              && (source.Some? ==>
                    t == Throwable(DollarParserError,
                                   e.message + " at " + SourceSegment.SourceMessage(source.value.segment).value, Some(e), []))
  {
    if source.Some? && SourceSegment.SourceMessage(source.value.segment).Err? then
      Throws(MessageFailure(SourceSegment.SourceMessage(source.value.segment).error))
    else
      var throwable := if source.Some?
                       then Throwable(DollarParserError,
                                      e.message + " at " + SourceSegment.SourceMessage(source.value.segment).value, Some(e), [])
                       else e;
      if (e.kind == VariableNotFoundException && h.missingVariables) || h.failfast then ScopeHandled(throwable)
      else FailureValue(Some(throwable), false, None)
  }

  /**
   * An error raised by a token on the last line of a script without a
   * trailing newline escapes as StringIndexOutOfBoundsException, and the
   * Dollar exception never reaches the scope's handler.
   */
  lemma LastLineErrorEscapes(h: Handler, shown: string, seg: SourceSegment.Segment, e: Throwable)
    requires 0 <= seg.start && 0 <= seg.length && seg.start + seg.length <= |seg.source|
    requires '\n' !in seg.source[seg.start + seg.length..]
    ensures HandleDollar(h, Some(Segment(shown, seg)), e) == Throws(Throwable(StringIndexOutOfBoundsException, "", None, []))
  {
  }

  /** unravel: the cause of an InvocationTargetException (which may be null), any other exception itself. */
  function Unravel(e: Throwable): (r: Option<Throwable>)
    ensures e.kind == InvocationTargetException ==> r == e.cause
    ensures e.kind != InvocationTargetException ==> r == Some(e)
    ensures r.Some? && r.value != e ==> e.kind == InvocationTargetException && r.value < e
  {
    if e.kind == InvocationTargetException then e.cause else Some(e)
  }

  /** Unravelling strips exactly one wrapper: a wrapped wrapper comes back still wrapped. */
  lemma UnravelOneLayer(inner: Throwable, m1: string, m2: string)
    ensures Unravel(Throwable(InvocationTargetException, m1, Some(inner), [])) == Some(inner)
    ensures var twice := Throwable(InvocationTargetException, m2,
                                   Some(Throwable(InvocationTargetException, m1, Some(inner), [])), []);
            Unravel(twice) == Some(Throwable(InvocationTargetException, m1, Some(inner), []))
  {
  }

  function Shown(source: Option<Segment>): string
  {
    if source.Some? then source.value.shown else "null"
  }

  /**
   * Any other exception, whatever the flags: recursion is thrown on as a
   * parser error; a Dollar exception with a source gets the source added
   * and is thrown on; anything else becomes an EXCEPTION failure of the
   * unravelled exception, carrying the source when there is one.
   */
  function HandleException(h: Handler, source: Option<Segment>, e: Throwable): (r: Outcome)
    ensures !r.ScopeHandled?
    ensures e.kind == LambdaRecursionException ==>
              r == Throws(Throwable(DollarParserError, ParserErrorHandler.RECURSION_MESSAGE + Shown(source), None, []))
    ensures e.kind != LambdaRecursionException && IsDollarException(e.kind) && source.Some? ==>
              r == Throws(e.(sources := e.sources + [source.value]))
    ensures r.FailureValue? <==> e.kind != LambdaRecursionException && !(IsDollarException(e.kind) && source.Some?)
    ensures r.FailureValue? ==> r.failure == Unravel(e) && r.exceptionType && r.source == source
  {
    if e.kind == LambdaRecursionException then
      Throws(Throwable(DollarParserError, ParserErrorHandler.RECURSION_MESSAGE + Shown(source), None, []))
    else if IsDollarException(e.kind) && source.Some? then Throws(e.(sources := e.sources + [source.value]))
    else if source.Some? then FailureValue(Unravel(e), true, source)
    else FailureValue(Unravel(e), true, None)
  }

  /** Recursion is fatal to both generations, with the same message, whatever the flags. */
  lemma RecursionAlwaysThrown(h: Handler, h0: ParserErrorHandler.Handler, source: Segment, e: Throwable, e0: ParserErrorHandler.Throwable)
    requires e.kind == LambdaRecursionException && e0.kind == ParserErrorHandler.LambdaRecursionException
    ensures HandleException(h, Some(source), e).Throws?
    ensures ParserErrorHandler.HandleException(h0, source.shown, e0).Throws?
    ensures HandleException(h, Some(source), e).thrown.message
            == ParserErrorHandler.HandleException(h0, source.shown, e0).thrown.message
  {
  }

  /**
   * With fail-fast off, a missing variable still reaches the scope's handler
   * exactly when missing variables count (and its source message can be built).
   */
  lemma MissingVariableWithoutFailfast(h: Handler, source: Option<Segment>, e: Throwable)
    requires !h.failfast && e.kind == VariableNotFoundException
    ensures HandleDollar(h, source, e).ScopeHandled? <==> h.missingVariables && !HandleDollar(h, source, e).Throws?
  {
  }
}
