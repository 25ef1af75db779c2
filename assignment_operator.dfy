/**
 * dollar.internal.runtime.script.operators.AssignmentOperator: the decisions
 * an assignment `[export] [const|volatile] [<type>] name [( constraint )] op rhs`
 * makes. `apply` reads the token once (flags, type constraint, builtin
 * check); the function it returns picks, for each right-hand side, between
 * the listen (`?=`), subscribe (`*=`) and plain assignments. The scope
 * updates they make through Scope.set and setVariable are returned as
 * effects, in the order they are requested.
 */
module AssignmentOperator {
  import opened Results
  import SourceSegment

  const MIN_PROBABILITY: real := 0.5
  const BUILTIN_ATTRIBUTE: string := "__builtin"

  /** The constraint of a variable: the one written, the one built from a type, or one already stored. */
  datatype Constraint =
    | Written
    | TypeCheck(typeName: string, alsoWritten: bool)
    | Stored(id: nat)

  /** The parts of the parsed assignment (objects[0..5] of the token). */
  datatype AssignToken = AssignToken(
    exported: bool,                  // objects[0] != null
    mutability: Option<string>,      // objects[1]
    typeName: Option<string>,        // objects[2]
    written: Option<Option<string>>, // objects[3]: a constraint, and the text of its source segment if it has one
    targetName: string,              // objects[4].toString()
    targetIsBuiltin: bool,           // objects[4] has the "__builtin" meta attribute
    op: string)                      // objects[5]

  datatype Thrown =
    | DollarScriptException(message: string)
    | IllegalArgumentException      // Type.valueOf of an unknown name
    | AssertionError                // a constraint without a source segment

  /** What apply prepares for every right-hand side. */
  datatype Prepared = Prepared(
    varName: string,
    typeName: Option<string>,
    constraint: Option<Constraint>,
    constraintSource: Option<string>,
    decleration: bool,
    constant: bool,
    isVolatile: bool,
    exported: bool,
    op: string)

  /** The constraint and its source as the scope stores them for a variable. */
  datatype StoredConstraint = StoredConstraint(constraint: Option<Constraint>, source: Option<string>)

  /**
   * A value bound or exported: the right-hand side as given, void, the
   * right-hand side fixed at depth one (`rhs._fix(1, false)`), or the event a
   * reactive assignment receives, fixed deeply (listen) or fixed once
   * (subscribe).
   */
  datatype Bound = TheRhs | TheVoid | RhsFixedOnce | EventFixedDeep | EventFixed

  datatype Effect =
    | ScopeSet(name: string, value: Bound, readonly: bool, constraint: Option<Constraint>,
               source: Option<string>, isVolatile: bool, fixed: bool)
    | HandleError(message: string)
    | Export(name: string, value: Bound)
    | SetVariable(name: string, value: Bound, readonly: bool, constraint: Option<Constraint>, source: Option<string>,
                  isVolatile: bool, fixed: bool, decleration: bool)

  /** The node an assignment evaluates to: its operation name, the constrained input, and what it does with a value. */
  datatype Built =
    | Reactive(operation: string, inputConstraint: Option<Constraint>, inputSource: Option<string>, onValue: Effect)
    | Assignment(inputConstraint: Option<Constraint>, inputSource: Option<string>)

  /**
   * The type prediction of the right-hand side: the probability of the
   * declared type, whether the prediction is empty, and the most probable
   * type with its probability.
   */
  datatype Prediction = Prediction(probability: real, empty: bool, probableType: string, probableProbability: real)

  /** The logged warning: the expected type, the most likely one, its probability in whole percent, and where. */
  datatype Warning = Warning(expected: string, probable: string, percent: int, at: string)

  /** Where the returned function runs: the current scope's source and file, and the assignment token's position. */
  datatype Site = Site(scopeSource: Option<string>, file: Option<string>, tokenIndex: int, tokenLength: int)

  /** How a Dollar value answers isTrue() and isFalse(): a boolean is one or the other, other values may be neither. */
  datatype Truth = True | False | Neither

  /**
   * What the constraints see when they run for one right-hand side: the
   * types `it` (the fixed right-hand side) is, the truth of the written
   * constraint, and the truth of each stored constraint.
   */
  datatype Evaluation = Evaluation(itIs: set<string>, written: Truth, stored: nat -> Truth)

  /** How one assignment ends: the effects requested, in order, and the value returned or the exception thrown. */
  datatype Outcome = Outcome(effects: seq<Effect>, result: Result<Bound, Thrown>)

  // ------------------------------------------------------------------ apply

  function UpperChar(c: char): char
  {
    if 'a' <= c <= 'z' then (c as int - 'a' as int + 'A' as int) as char else c
  }

  /** toUpperCase for the ASCII letters a type name is written in. */
  function Upper(s: string): (r: string)
    ensures |r| == |s|
    ensures forall i :: 0 <= i < |s| ==> r[i] == UpperChar(s[i])
  {
    if |s| == 0 then [] else [UpperChar(s[0])] + Upper(s[1..])
  }

  /** The declaration flags: declared with any mutability word; const and volatile by that word. */
  function Flags(mutability: Option<string>): (r: (bool, bool, bool))
    ensures r.0 <==> mutability.Some?
    ensures r.1 <==> mutability == Some("const")
    ensures r.2 <==> mutability == Some("volatile")
    ensures !(r.1 && r.2)
    ensures r.1 || r.2 ==> r.0
  {
    (mutability.Some?,
     mutability.Some? && mutability.value == "const",
     mutability.Some? && mutability.value == "volatile")
  }

  /**
   * apply: the constraint source is read first (a written constraint
   * without a source segment fails its assertion), then the type name is
   * looked up among the Type constants (an unknown one throws), then a
   * builtin target is refused; otherwise the assignment is prepared.
   */
  function Apply(t: AssignToken, typeNames: set<string>): (r: Result<Prepared, Thrown>)
    ensures r.Ok? <==> (t.written.Some? ==> t.written.value.Some?)
                       && (t.typeName.Some? ==> Upper(t.typeName.value) in typeNames)
                       && !t.targetIsBuiltin
    ensures t.written.Some? && t.written.value.None? ==> r == Err(AssertionError)
    ensures t.targetIsBuiltin && r.Err? && r.error.DollarScriptException? ==>
              r.error.message == "The variable '" + t.targetName
                                 + "' cannot be assigned as this name is the name of a builtin function."
    ensures r.Ok? ==> r.value.varName == t.targetName && r.value.op == t.op && r.value.exported == t.exported
    ensures r.Ok? ==> (r.value.decleration, r.value.constant, r.value.isVolatile) == Flags(t.mutability)
    ensures r.Ok? ==> r.value.constraintSource == (if t.written.Some? then t.written.value else None)
    ensures r.Ok? && t.typeName.Some? ==>
              r.value.constraint == Some(TypeCheck(Upper(t.typeName.value), t.written.Some?))
    ensures r.Ok? && t.typeName.None? ==> r.value.constraint == (if t.written.Some? then Some(Written) else None)
  {
    if t.written.Some? && t.written.value.None? then Err(AssertionError)
    else if t.typeName.Some? && Upper(t.typeName.value) !in typeNames then Err(IllegalArgumentException)
    else if t.targetIsBuiltin then
      Err(DollarScriptException("The variable '" + t.targetName
                                + "' cannot be assigned as this name is the name of a builtin function."))
    else
      var typeName := if t.typeName.Some? then Some(Upper(t.typeName.value)) else None;
      var constraint :=
        if typeName.Some? then Some(TypeCheck(typeName.value, t.written.Some?))
        else if t.written.Some? then Some(Written) else None;
      var (decleration, constant, isVolatile) := Flags(t.mutability);
      Ok(Prepared(t.targetName, typeName, constraint, if t.written.Some? then t.written.value else None,
                  decleration, constant, isVolatile, t.exported, t.op))
  }

  /**
   * The value of a constraint for the fixed right-hand side. The type
   * constraint node is `$(it.is(type) && (written == null || written.isTrue()))`,
   * a boolean, so it is never neither.
   */
  function Evaluate(c: Constraint, e: Evaluation): Truth
  {
    match c
    case Written => e.written
    case TypeCheck(t, alsoWritten) => if t in e.itIs && (!alsoWritten || e.written == True) then True else False
    case Stored(id) => e.stored(id)
  }

  /** Java's (int) cast of a double: truncation toward zero. */
  function TruncateToInt(x: real): (r: int)
    ensures x >= 0.0 ==> r as real <= x < r as real + 1.0
    ensures x < 0.0 ==> r as real - 1.0 < x <= r as real
  {
    if x >= 0.0 then x.Floor else -((-x).Floor)
  }

  /** Whether the type warning fires: a declared type that a non-empty prediction gives less than an even chance. */
  predicate Warns(p: Prepared, prediction: Option<Prediction>)
  {
    p.typeName.Some? && prediction.Some? && prediction.value.probability < MIN_PROBABILITY && !prediction.value.empty
  }

  /**
   * The type warning, logged before anything else. Its last argument is
   * built eagerly: a SourceSegmentValue of the current scope and the token
   * (refused when the scope has no source), then its getSourceMessage(),
   * which throws when the token overruns the source or ends its last line.
   */
  function Warn(p: Prepared, prediction: Option<Prediction>, site: Site): (r: Result<Option<Warning>, SourceSegment.Failure>)
    ensures !Warns(p, prediction) ==> r == Ok(None)
    ensures Warns(p, prediction) && site.scopeSource.None? ==> r == Err(SourceSegment.DollarParserError)
    ensures Warns(p, prediction) && site.scopeSource.Some? ==>
              var seg := SourceSegment.Segment(site.file, site.scopeSource.value, site.tokenIndex, site.tokenLength);
              (r.Err? <==> SourceSegment.SourceMessage(seg).Err?)
              && (r.Err? ==> r.error == SourceSegment.SourceMessage(seg).error)
              && (r.Ok? ==> r.value == Some(Warning(p.typeName.value, prediction.value.probableType,
                                                   TruncateToInt(prediction.value.probableProbability * 100.0),
                                                   SourceSegment.SourceMessage(seg).value)))
  {
    if !Warns(p, prediction) then Ok(None)
    else match SourceSegment.Create(site.scopeSource, site.file, site.tokenIndex, site.tokenLength)
      case Err(f) => Err(f)
      case Ok(seg) =>
        match SourceSegment.SourceMessage(seg)
        case Err(f) => Err(f)
        case Ok(at) =>
          Ok(Some(Warning(p.typeName.value, prediction.value.probableType,
                          TruncateToInt(prediction.value.probableProbability * 100.0), at)))
  }

  // --------------------------------------------------------- the returned function

  /**
   * The reactive and plain assignments, for one right-hand side: `?=` binds
   * the variable to the right-hand side and builds a node that listens to
   * it, setting the variable to each event fixed deeply; `*=` binds it to
   * void as volatile and fixed and builds a node that subscribes to it,
   * setting the variable to each event fixed once; anything else builds the
   * assignment node. The reactive forms take the written constraint, or
   * else the one the current scope stores for the name.
   */
  function Dispatch(p: Prepared, stored: StoredConstraint): (r: (seq<Effect>, Built))
    ensures p.op == "?=" || p.op == "*=" ==> |r.0| == 1 && r.0[0].ScopeSet? && r.1.Reactive?
    ensures p.op != "?=" && p.op != "*=" ==> r.0 == [] && r.1 == Assignment(p.constraint, p.constraintSource)
    ensures r.1.Reactive? ==>
              var useSource := if p.constraint.Some? then p.constraintSource else stored.source;
              var useConstraint := if p.constraint.Some? then p.constraint else stored.constraint;
              r.0[0].name == p.varName && r.0[0].source == useSource && r.0[0].constraint.None? && !r.0[0].readonly
              && r.1.inputConstraint == p.constraint && r.1.inputSource == useSource
              && r.1.onValue.SetVariable? && r.1.onValue.constraint == useConstraint
              && r.1.onValue.source == useSource && r.1.onValue.name == p.varName
              && !r.1.onValue.readonly && !r.1.onValue.fixed && r.1.onValue.decleration == p.decleration
    ensures p.op == "?=" ==> (r.0[0].value == TheRhs && r.0[0].isVolatile == p.isVolatile && !r.0[0].fixed
                              && r.1.operation == "listen-assign" && r.1.onValue.value == EventFixedDeep
                              && r.1.onValue.isVolatile == p.isVolatile)
    ensures p.op == "*=" ==> (r.0[0].value == TheVoid && r.0[0].isVolatile && r.0[0].fixed
                              && r.1.operation == "subscribe-assign" && r.1.onValue.value == EventFixed
                              && r.1.onValue.isVolatile)
  {
    if p.op == "?=" || p.op == "*=" then
      var useConstraint := if p.constraint.Some? then p.constraint else stored.constraint;
      var useSource := if p.constraint.Some? then p.constraintSource else stored.source;
      if p.op == "?=" then
        ([ScopeSet(p.varName, TheRhs, false, None, useSource, p.isVolatile, false)],
         Reactive("listen-assign", p.constraint, useSource,
                  SetVariable(p.varName, EventFixedDeep, false, useConstraint, useSource, p.isVolatile, false, p.decleration)))
      else
        ([ScopeSet(p.varName, TheVoid, false, None, useSource, true, true)],
         Reactive("subscribe-assign", p.constraint, useSource,
                  SetVariable(p.varName, EventFixed, false, useConstraint, useSource, true, false, p.decleration)))
    else ([], Assignment(p.constraint, p.constraintSource))
  }

  /**
   * The function apply returns, run for one right-hand side: the type
   * warning first, whose message can throw before anything is bound or
   * built; then the dispatch on the operator.
   */
  function OnRhs(p: Prepared, prediction: Option<Prediction>, site: Site, stored: StoredConstraint)
    : (r: Result<(Option<Warning>, seq<Effect>, Built), SourceSegment.Failure>)
    ensures r.Err? <==> Warn(p, prediction, site).Err?
    ensures r.Err? ==> r.error == Warn(p, prediction, site).error
    ensures r.Ok? ==> r.value.0 == Warn(p, prediction, site).value
                      && (r.value.0.Some? <==> Warns(p, prediction))
                      && r.value.1 == Dispatch(p, stored).0 && r.value.2 == Dispatch(p, stored).1
  {
    match Warn(p, prediction, site)
    case Err(f) => Err(f)
    case Ok(w) =>
      var (effects, built) := Dispatch(p, stored);
      Ok((w, effects, built))
  }

  /** Without a declared type nothing is logged and nothing can throw before the dispatch. */
  lemma UntypedNeverWarns(p: Prepared, prediction: Option<Prediction>, site: Site, stored: StoredConstraint)
    requires p.typeName.None?
    ensures OnRhs(p, prediction, site, stored).Ok?
    ensures OnRhs(p, prediction, site, stored).value.0.None?
  {
  }

  /**
   * A warned assignment whose token ends the last line of a source without
   * a trailing newline throws StringIndexOutOfBoundsException from the
   * warning, so the variable is neither bound nor assigned.
   */
  lemma WarningOnLastLineThrows(p: Prepared, prediction: Option<Prediction>, source: string, file: Option<string>,
                                index: int, length: int, stored: StoredConstraint)
    requires Warns(p, prediction)
    requires 0 <= index && 0 <= length && index + length <= |source|
    requires '\n' !in source[index + length..]
    ensures OnRhs(p, prediction, Site(Some(source), file, index, length), stored)
            == Err(SourceSegment.StringIndexOutOfBounds)
  {
  }

  /** The constraint and source an assignment checks: the written ones, or those of the scope already holding the variable. */
  function ChooseConstraint(p: Prepared, varScope: Option<StoredConstraint>): (r: StoredConstraint)
    ensures p.constraint.Some? || varScope.None? ==> r == StoredConstraint(p.constraint, p.constraintSource)
    ensures p.constraint.None? && varScope.Some? ==> r == varScope.value
  {
    if p.constraint.Some? || varScope.None? then StoredConstraint(p.constraint, p.constraintSource) else varScope.value
  }

  /** Whether the chosen constraint is reported: there is one, and it evaluates to false. */
  predicate ConstraintFails(p: Prepared, varScope: Option<StoredConstraint>, e: Evaluation)
  {
    var chosen := ChooseConstraint(p, varScope);
    chosen.constraint.Some? && Evaluate(chosen.constraint.value, e) == False
  }

  function ConstraintMessage(name: string): string
  {
    "Constraint failed for variable " + name
  }

  /**
   * The assignment node's function: the right-hand side is fixed at depth
   * one; a chosen constraint that is false is reported to the scope's error
   * handler, which may throw, ending the assignment there; otherwise an
   * exported assignment exports the fixed value, the variable is set to
   * it, with the written constraint and the chosen source, and void is
   * returned.
   */
  function AssignBody(p: Prepared, varScope: Option<StoredConstraint>, e: Evaluation, handlerThrows: bool): (r: Outcome)
    ensures var fails := ConstraintFails(p, varScope, e);
            (HandleError(ConstraintMessage(p.varName)) in r.effects <==> fails)
            && (fails && handlerThrows ==>
                  r.effects == [HandleError(ConstraintMessage(p.varName))]
                  && r.result == Err(DollarScriptException(ConstraintMessage(p.varName))))
            && (!(fails && handlerThrows) ==>
                  r.result == Ok(TheVoid)
                  && |r.effects| == 1 + (if fails then 1 else 0) + (if p.exported then 1 else 0)
                  && (Export(p.varName, RhsFixedOnce) in r.effects <==> p.exported)
                  && r.effects[|r.effects| - 1] ==
                       SetVariable(p.varName, RhsFixedOnce, p.constant, p.constraint, ChooseConstraint(p, varScope).source,
                                   p.isVolatile, p.constant, p.decleration))
    ensures forall i, j :: 0 <= i < j < |r.effects| && r.effects[j].HandleError? ==> !r.effects[i].Export?
  {
    var chosen := ChooseConstraint(p, varScope);
    var message := ConstraintMessage(p.varName);
    if ConstraintFails(p, varScope, e) && handlerThrows then
      Outcome([HandleError(message)], Err(DollarScriptException(message)))
    else
      var failure := if ConstraintFails(p, varScope, e) then [HandleError(message)] else [];
      var exporting := if p.exported then [Export(p.varName, RhsFixedOnce)] else [];
      Outcome(failure + exporting + [SetVariable(p.varName, RhsFixedOnce, p.constant, p.constraint, chosen.source,
                                                 p.isVolatile, p.constant, p.decleration)],
              Ok(TheVoid))
  }

  /**
   * The type constraint reports a failure exactly when the fixed right-hand
   * side is not of the type, or a written constraint beside the type is not
   * true: so a wrongly typed value is always reported.
   */
  lemma TypeCheckFailsExactly(p: Prepared, varScope: Option<StoredConstraint>, e: Evaluation, handlerThrows: bool)
    requires p.constraint.Some? && p.constraint.value.TypeCheck?
    ensures var t := p.constraint.value;
            HandleError(ConstraintMessage(p.varName)) in AssignBody(p, varScope, e, handlerThrows).effects
            <==> t.typeName !in e.itIs || (t.alsoWritten && e.written != True)
  {
  }

  /**
   * A written constraint that is neither true nor false (not a boolean)
   * passes on its own, but fails beside a type even when the value is of
   * that type: the type node asks isTrue(), the assignment asks isFalse().
   */
  lemma NeitherPassesOnlyWithoutType(p: Prepared, varScope: Option<StoredConstraint>, e: Evaluation, handlerThrows: bool)
    requires e.written == Neither
    requires p.constraint == Some(Written) || (p.constraint.Some? && p.constraint.value.TypeCheck?
                                              && p.constraint.value.alsoWritten && p.constraint.value.typeName in e.itIs)
    ensures HandleError(ConstraintMessage(p.varName)) in AssignBody(p, varScope, e, handlerThrows).effects
            <==> p.constraint.value.TypeCheck?
  {
  }

  /**
   * The constraint is sticky: an assignment without a written constraint to
   * a variable that already has a scope checks the constraint stored there,
   * so a later plain assignment cannot drop it.
   */
  lemma ConstraintSticky(p: Prepared, held: StoredConstraint, e: Evaluation, handlerThrows: bool)
    requires p.constraint.None? && held.constraint.Some?
    requires Evaluate(held.constraint.value, e) == False
    ensures ChooseConstraint(p, Some(held)) == held
    ensures HandleError(ConstraintMessage(p.varName)) in AssignBody(p, Some(held), e, handlerThrows).effects
  {
  }
}
