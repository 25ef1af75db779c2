/**
 * dollar.internal.runtime.script.UnaryOp: a unary operator bound to an
 * operator table entry. Construction checks the operator against the entry;
 * `map` builds an eager or a reactive node over the operand; the source
 * segment is set after construction.
 */
module UnaryOp {
  import opened Results
  import opened OpDefs

  /**
   * validate, in its order: the operator's immediacy must be the opposite
   * of the entry's reactivity, the entry must be prefix or postfix, and a
   * pure operator needs an entry marked pure. The purity is unboxed without
   * a null check, so a pure operator over an entry that does not say
   * throws NullPointerException.
   */
  function Validate(op: OpDef, immediate: bool, pure: bool): (r: Option<Thrown>)
    ensures r.None? <==> op.reactive != immediate && IsUnaryType(op.opType) && (pure ==> op.pure == Some(true))
    ensures op.reactive == immediate ==> r == Some(AssertionError(ReactivityMessage(op, immediate)))
    ensures op.reactive != immediate && !IsUnaryType(op.opType) ==> r == Some(AssertionError(UnaryTypeMessage(op)))
    ensures r == Some(NullPointerException) <==> op.reactive != immediate && IsUnaryType(op.opType) && pure && op.pure.None?
  {
    if op.reactive == immediate then Some(AssertionError(ReactivityMessage(op, immediate)))
    else if op.opType != Prefix && op.opType != Postfix then Some(AssertionError(UnaryTypeMessage(op)))
    else if pure && op.pure.None? then Some(NullPointerException)
    else if pure && !op.pure.value then Some(AssertionError(PurityMessage(op)))
    else None
  }

  class UnaryOp {
    const operation: OpDef
    const immediate: bool
    const pure: bool
    const fn: Var -> Var
    var source: Option<string>

    /** Every constructed operator agrees with its table entry. */
    predicate Valid()
    {
      Validate(operation, immediate, pure).None?
    }

    constructor Make(immediate: bool, fn: Var -> Var, operation: OpDef, pure: bool)
      requires Validate(operation, immediate, pure).None?
      ensures Valid()
      ensures this.operation == operation && this.immediate == immediate && this.pure == pure
      ensures this.fn == fn && source.None?
    {
      this.operation := operation;
      this.immediate := immediate;
      this.fn := fn;
      this.pure := pure;
      source := None;
    }

    /**
     * map: an immediate operator builds an eager node whose only input is
     * the operand; otherwise a reactive node on the operand. Both carry the
     * operation's name and evaluate the function on the operand.
     */
    function Map(from: Var): (n: Built)
      reads this
      ensures n.operation == operation.name && n.pure == pure && n.source == source
      ensures n.value == fn(from)
      ensures n.Eager? <==> immediate
      ensures n.Eager? ==> n.inputs == [from]
      ensures n.Reactive? ==> n.on == from
    {
      if immediate then Eager(operation.name, pure, source, [from], fn(from))
      else Reactive(operation.name, pure, source, from, fn(from))
    }

    /** setSource: only the source changes, so the operator stays valid. */
    method SetSource(s: string)
      requires Valid()
      modifies this
      ensures Valid() && source == Some(s)
    {
      source := Some(s);
    }
  }

  /** The four-argument constructor: never immediate, checked against the entry. */
  method NewLazy(operation: OpDef, fn: Var -> Var, pure: bool) returns (r: Result<UnaryOp, Thrown>)
    ensures r.Err? <==> Validate(operation, false, pure).Some?
    ensures r.Err? ==> r.error == Validate(operation, false, pure).value
    ensures r.Ok? ==> fresh(r.value) && r.value.Valid() && !r.value.immediate && r.value.operation == operation
                      && r.value.fn == fn && r.value.pure == pure && r.value.source.None?
  {
    var v := Validate(operation, false, pure);
    if v.Some? {
      return Err(v.value);
    }
    var u := new UnaryOp.Make(false, fn, operation, pure);
    return Ok(u);
  }

  /** The five-argument constructor, with the immediacy given. */
  method New(immediate: bool, fn: Var -> Var, operation: OpDef, pure: bool) returns (r: Result<UnaryOp, Thrown>)
    ensures r.Err? <==> Validate(operation, immediate, pure).Some?
    ensures r.Err? ==> r.error == Validate(operation, immediate, pure).value
    ensures r.Ok? ==> fresh(r.value) && r.value.Valid() && r.value.immediate == immediate && r.value.operation == operation
                      && r.value.fn == fn && r.value.pure == pure && r.value.source.None?
  {
    var v := Validate(operation, immediate, pure);
    if v.Some? {
      return Err(v.value);
    }
    var u := new UnaryOp.Make(immediate, fn, operation, pure);
    return Ok(u);
  }

  /** Only a reactive entry can back the four-argument constructor, and then its nodes are reactive. */
  lemma LazyNeedsReactiveEntry(op: OpDef, pure: bool)
    ensures Validate(op, false, pure).None? ==> op.reactive
    ensures !op.reactive ==> Validate(op, false, pure) == Some(AssertionError(ReactivityMessage(op, false)))
  {
  }
}
