/**
 * The operator definitions both unary operator classes check themselves
 * against (dollar.internal.runtime.script.parser.OpDef, read only through
 * its accessors), the nodes they build and the messages their checks fail
 * with.
 */
module OpDefs {
  import opened Results

  datatype OpDefType = Prefix | Postfix | Binary | OtherType(name: string)

  /** An operator table entry. Its purity is a nullable Boolean: None when the table does not say. */
  datatype OpDef = OpDef(name: string, reactive: bool, opType: OpDefType, pure: Option<bool>)

  /** A script value, opaque to the operators. */
  datatype Var = Var(ref: nat)

  datatype Thrown = AssertionError(message: string) | NullPointerException

  /**
   * The node UnaryOp builds over its operand: an eager node with the operand
   * as its only input, or a reactive node on the operand. Either way it
   * evaluates the operator's function on the operand, which depends on
   * nothing else.
   */
  datatype Built =
    | Eager(operation: string, pure: bool, source: Option<string>, inputs: seq<Var>, value: Var)
    | Reactive(operation: string, pure: bool, source: Option<string>, on: Var, value: Var)

  function ReactivityMessage(op: OpDef, immediate: bool): string
  {
    "The operation " + op.name + " is marked as " + (if op.reactive then "reactive" else "unreactive") + " "
    + "yet this operator is set to be " + (if immediate then "unreactive" else "reactive")
  }

  function UnaryTypeMessage(op: OpDef): string
  {
    "The operator " + op.name + " is not defined as a unary type but used in a unary operator."
  }

  /** Reached only for a pure operator over an operation marked impure. */
  function PurityMessage(op: OpDef): string
  {
    "The operation " + op.name + " is marked as impure yet this operator is set to be pure"
  }

  predicate IsUnaryType(t: OpDefType)
  {
    t == Prefix || t == Postfix
  }
}
