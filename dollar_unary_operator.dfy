/**
 * dollar.internal.runtime.script.DollarUnaryOperator: the later unary
 * operator class. It makes the same checks as UnaryOp except that an entry
 * silent about purity passes, and its function also receives the source.
 */
module DollarUnaryOperator {
  import opened Results
  import opened OpDefs
  import UnaryOp

  /** validate: as UnaryOp's, but only an entry explicitly marked impure fails the purity check. */
  function Validate(op: OpDef, immediate: bool, pure: bool): (r: Option<Thrown>)
    ensures r.None? <==> op.reactive != immediate && IsUnaryType(op.opType) && (pure ==> op.pure != Some(false))
    ensures r != Some(NullPointerException)
    ensures op.reactive == immediate ==> r == Some(AssertionError(ReactivityMessage(op, immediate)))
    ensures op.reactive != immediate && !IsUnaryType(op.opType) ==> r == Some(AssertionError(UnaryTypeMessage(op)))
  {
    if op.reactive == immediate then Some(AssertionError(ReactivityMessage(op, immediate)))
    else if op.opType != Prefix && op.opType != Postfix then Some(AssertionError(UnaryTypeMessage(op)))
    else if pure && op.pure.Some? && !op.pure.value then Some(AssertionError(PurityMessage(op)))
    else None
  }

  /**
   * The two generations agree on every entry that states its purity; on an
   * entry that does not, a pure operator is accepted here and fails with
   * NullPointerException in UnaryOp.
   */
  lemma ValidatorsAgreeOnStatedPurity(op: OpDef, immediate: bool, pure: bool)
    ensures op.pure.Some? || !pure ==> Validate(op, immediate, pure) == UnaryOp.Validate(op, immediate, pure)
    ensures op.pure.None? && pure && op.reactive != immediate && IsUnaryType(op.opType) ==>
              Validate(op, immediate, pure).None? && UnaryOp.Validate(op, immediate, pure) == Some(NullPointerException)
  {
  }

  class DollarUnaryOperator {
    const operation: OpDef
    const immediate: bool
    const pure: bool
    const fn: (Var, Option<string>) -> Var
    var source: Option<string>

    predicate Valid()
    {
      Validate(operation, immediate, pure).None?
    }

    constructor Make(immediate: bool, fn: (Var, Option<string>) -> Var, operation: OpDef, pure: bool)
      requires Validate(operation, immediate, pure).None?
      ensures Valid()
      ensures this.operation == operation && this.immediate == immediate && this.pure == pure
      ensures this.fn == fn && source.None?
    {
      this.operation := operation;
      this.immediate := immediate;
      this.fn := fn;
      this.pure := pure;
      source := None;
    }

    /**
     * apply: an immediate operator builds an eager node over the operand
     * alone, otherwise a reactive node on it. The node takes the operator's
     * current source as its own; its function is not called yet (see Run).
     */
    function Apply(from: Var): (n: Node)
      reads this
      ensures n.operator == this && n.operand == from
      ensures n.operation == operation.name && n.pure == pure && n.source == source
      ensures n.Eager? <==> immediate
      ensures n.Eager? ==> n.inputs == [from]
      ensures Run(n) == fn(from, source)
    {
      if immediate then Node.Eager(operation.name, pure, source, [from], from, this)
      else Node.Reactive(operation.name, pure, source, from, this)
    }

    /**
     * setSource: only the source changes. Every node this operator built
     * runs with the new source from now on, those built earlier included.
     */
    method SetSource(s: string)
      requires Valid()
      modifies this
      ensures Valid() && source == Some(s)
    {
      source := Some(s);
    }
  }

  /**
   * The node apply builds: eager with the operand as its only input, or
   * reactive on the operand. Besides the source it is built with, it holds
   * the operand and the operator whose function it calls when it runs.
   */
  datatype Node =
    | Eager(operation: string, pure: bool, source: Option<string>, inputs: seq<Var>, operand: Var,
            operator: DollarUnaryOperator)
    | Reactive(operation: string, pure: bool, source: Option<string>, operand: Var, operator: DollarUnaryOperator)

  /**
   * Running a node: the operator's function on the operand and on the
   * operator's source as it is when the node runs. Only while that is still
   * the source the node was built with does the function see the node's own
   * source.
   */
  function Run(n: Node): (v: Var)
    reads n.operator
    ensures n.operator.source == n.source ==> v == n.operator.fn(n.operand, n.source)
  {
    n.operator.fn(n.operand, n.operator.source)
  }

  /**
   * A node built before a later setSource keeps the earlier source as its
   * own, but its function is called with the later one.
   */
  method SourceReadWhenRun(u: DollarUnaryOperator, from: Var, first: string, second: string) returns (n: Node)
    requires u.Valid()
    modifies u
    ensures n.operator == u && n.operand == from && n.source == Some(first)
    ensures Run(n) == u.fn(from, Some(second))
  {
    u.SetSource(first);
    n := u.Apply(from);
    u.SetSource(second);
  }

  /** The four-argument constructor: never immediate, checked against the entry. */
  method NewLazy(operation: OpDef, fn: (Var, Option<string>) -> Var, pure: bool)
    returns (r: Result<DollarUnaryOperator, Thrown>)
    ensures r.Err? <==> Validate(operation, false, pure).Some?
    ensures r.Err? ==> r.error == Validate(operation, false, pure).value
    ensures r.Ok? ==> fresh(r.value) && r.value.Valid() && !r.value.immediate && r.value.operation == operation
                      && r.value.fn == fn && r.value.pure == pure && r.value.source.None?
  {
    var v := Validate(operation, false, pure);
    if v.Some? {
      return Err(v.value);
    }
    var u := new DollarUnaryOperator.Make(false, fn, operation, pure);
    return Ok(u);
  }

  /** The five-argument constructor, with the immediacy given. */
  method New(immediate: bool, fn: (Var, Option<string>) -> Var, operation: OpDef, pure: bool)
    returns (r: Result<DollarUnaryOperator, Thrown>)
    ensures r.Err? <==> Validate(operation, immediate, pure).Some?
    ensures r.Err? ==> r.error == Validate(operation, immediate, pure).value
    ensures r.Ok? ==> fresh(r.value) && r.value.Valid() && r.value.immediate == immediate && r.value.operation == operation
                      && r.value.fn == fn && r.value.pure == pure && r.value.source.None?
  {
    var v := Validate(operation, immediate, pure);
    if v.Some? {
      return Err(v.value);
    }
    var u := new DollarUnaryOperator.Make(immediate, fn, operation, pure);
    return Ok(u);
  }
}
