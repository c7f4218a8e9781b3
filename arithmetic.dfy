/** The backend's arithmetic: which operation-type strings a request may carry
    and how an operation's result follows from its parent value
    (backend/src/routes/operations.ts). */
module Arithmetic {
  import opened JsArrays
  import opened Types

  /** The wire name of each operation type. */
  function TypeName(t: OperationType): string
  {
    match t
    case Add => "add"
    case Subtract => "subtract"
    case Multiply => "multiply"
    case Divide => "divide"
  }

  /** The allow-list check `['add', 'subtract', 'multiply', 'divide'].includes(s)`,
      returning the matched type. */
  function ParseOperationType(s: string): (r: Option<OperationType>)
    ensures r.Some? <==> s in ["add", "subtract", "multiply", "divide"]
    ensures r.Some? ==> TypeName(r.value) == s
  {
    if s == "add" then Some(Add)
    else if s == "subtract" then Some(Subtract)
    else if s == "multiply" then Some(Multiply)
    else if s == "divide" then Some(Divide)
    else None
  }

  /** Parsing undoes naming: every type survives the round trip. */
  lemma ParseTypeName(t: OperationType)
    ensures ParseOperationType(TypeName(t)) == Some(t)
  {
  }

  /** The result of applying operation `t` with right operand `right` to the
      parent value `left`; the handler never reaches a division by zero. */
  function Apply(t: OperationType, left: real, right: real): (result: real)
    requires t == Divide ==> right != 0.0
    // the parent value can be read back from the result, except after a multiplication by zero
    ensures t == Add ==> result - right == left
    ensures t == Subtract ==> result + right == left
    ensures t == Multiply && right != 0.0 ==> result / right == left
    ensures t == Multiply && right == 0.0 ==> result == 0.0
    ensures t == Divide ==> result * right == left
  {
    match t
    case Add => left + right
    case Subtract => left - right
    case Multiply => left * right
    case Divide => left / right
  }

  /** Each operation can be undone from its result and right operand: the
      parent value is determined by the stored result unless the operation
      multiplies by zero. */
  lemma {:induction false} ApplyDeterminesLeft(t: OperationType, l1: real, l2: real, right: real)
    requires t == Divide ==> right != 0.0
    requires t == Multiply ==> right != 0.0
    ensures Apply(t, l1, right) == Apply(t, l2, right) <==> l1 == l2
  {
    match t
    case Add =>
    case Subtract =>
    case Multiply =>
      if Apply(t, l1, right) == Apply(t, l2, right) {
        assert (l1 - l2) * right == 0.0;
      }
    case Divide =>
      if Apply(t, l1, right) == Apply(t, l2, right) {
        assert l1 == (l1 / right) * right;
        assert l2 == (l2 / right) * right;
      }
  }
}
