/** The client's arithmetic helpers (frontend/src/services/api.ts): the
    symbol shown for an operation type, the preview of a reply's result, and
    the left operand an operation line shows, recovered from the stored
    result. Operation types arrive as plain strings here. */
module FrontendApi {
  import opened JsArrays
  import opened Types
  import opened Arithmetic
  import opened Storage
  import opened OperationTree

  /** `getOperationSymbol`: the sign for each known type, any other string unchanged. */
  function GetOperationSymbol(operationType: string): (symbol: string)
    ensures ParseOperationType(operationType) == Some(Add) ==> symbol == "+"
    ensures ParseOperationType(operationType) == Some(Subtract) ==> symbol == "-"
    ensures ParseOperationType(operationType) == Some(Multiply) ==> symbol == "×"
    ensures ParseOperationType(operationType) == Some(Divide) ==> symbol == "÷"
    ensures ParseOperationType(operationType).Some? ==> symbol in ["+", "-", "×", "÷"] && symbol != operationType
    ensures ParseOperationType(operationType).None? ==> symbol == operationType
  {
    match operationType
    case "add" => "+"
    case "subtract" => "-"
    case "multiply" => "×"
    case "divide" => "÷"
    case _ => operationType
  }

  /** Distinct types are shown with distinct signs, and no sign is the wire name of a type. */
  lemma SymbolsDistinct(t1: OperationType, t2: OperationType)
    ensures GetOperationSymbol(TypeName(t1)) == GetOperationSymbol(TypeName(t2)) <==> t1 == t2
    ensures GetOperationSymbol(TypeName(t1)) != TypeName(t2)
  {
  }

  /** `calculateResult`: the preview of `leftNumber op rightNumber`; a division
      by zero previews 0 and an unknown type previews the left number. */
  function CalculateResult(leftNumber: real, operationType: string, rightNumber: real): (result: real)
    ensures ParseOperationType(operationType).None? ==> result == leftNumber
    ensures operationType == "divide" && rightNumber == 0.0 ==> result == 0.0
  {
    match operationType
    case "add" => leftNumber + rightNumber
    case "subtract" => leftNumber - rightNumber
    case "multiply" => leftNumber * rightNumber
    case "divide" => if rightNumber != 0.0 then leftNumber / rightNumber else 0.0
    case _ => leftNumber
  }

  /** `calculateLeftNumber`: the left operand recovered from a result; a
      multiplication by zero recovers 0 and an unknown type the result itself. */
  function CalculateLeftNumber(result: real, operationType: string, rightNumber: real): (leftNumber: real)
    ensures ParseOperationType(operationType).None? ==> leftNumber == result
    ensures operationType == "multiply" && rightNumber == 0.0 ==> leftNumber == 0.0
  {
    match operationType
    case "add" => result - rightNumber
    case "subtract" => result + rightNumber
    case "multiply" => if rightNumber != 0.0 then result / rightNumber else 0.0
    case "divide" => result * rightNumber
    case _ => result
  }

  /** The preview is what the server stores for every request it accepts,
      and a type the server refuses leaves the left number as it is. */
  lemma PreviewMatchesServer(leftNumber: real, operationType: string, rightNumber: real)
    ensures ParseOperationType(operationType).Some? && (operationType == "divide" ==> rightNumber != 0.0) ==>
              CalculateResult(leftNumber, operationType, rightNumber) ==
                Apply(ParseOperationType(operationType).value, leftNumber, rightNumber)
    ensures ParseOperationType(operationType).None? ==> CalculateResult(leftNumber, operationType, rightNumber) == leftNumber
  {
  }

  /** Recovering the left operand undoes the operation whenever neither
      helper has to dodge a zero divisor. */
  lemma {:induction false} LeftNumberUndoesResult(leftNumber: real, operationType: string, rightNumber: real)
    requires operationType == "multiply" || operationType == "divide" ==> rightNumber != 0.0
    ensures CalculateLeftNumber(CalculateResult(leftNumber, operationType, rightNumber), operationType, rightNumber) == leftNumber
  {
    if operationType == "multiply" {
      assert (leftNumber * rightNumber) / rightNumber == leftNumber;
    } else if operationType == "divide" {
      assert (leftNumber / rightNumber) * rightNumber == leftNumber;
    }
  }

  /** And the other way round: the recovered left operand reproduces the result. */
  lemma {:induction false} ResultUndoesLeftNumber(result: real, operationType: string, rightNumber: real)
    requires operationType == "multiply" || operationType == "divide" ==> rightNumber != 0.0
    ensures CalculateResult(CalculateLeftNumber(result, operationType, rightNumber), operationType, rightNumber) == result
  {
    if operationType == "multiply" {
      assert (result / rightNumber) * rightNumber == result;
    } else if operationType == "divide" {
      assert (result * rightNumber) / rightNumber == result;
    }
  }

  // ---------------------------------------------- what an operation line shows

  /** The left operand an operation line shows (frontend/src/components/OperationNode.tsx:39),
      recovered from the stored record alone. */
  function ShownLeftNumber(op: Operation): (left: real)
    ensures op.operationType == Multiply && op.rightNumber == 0.0 ==> left == 0.0
    ensures (op.operationType in {Multiply, Divide} ==> op.rightNumber != 0.0) ==>
              CalculateResult(left, TypeName(op.operationType), op.rightNumber) == op.result
  {
    var left := CalculateLeftNumber(op.result, TypeName(op.operationType), op.rightNumber);
    if op.operationType in {Multiply, Divide} && op.rightNumber == 0.0 then left
    else
      ResultUndoesLeftNumber(op.result, TypeName(op.operationType), op.rightNumber);
      left
  }

  /** For every stored operation except a multiplication by zero, the
      recovered left operand is the value the operation was applied to. */
  lemma ShownLeftNumberIsParentValue(discussions: seq<Discussion>, ops: seq<Operation>, op: Operation)
    requires ResultsConsistent(discussions, ops) && op in ops
    requires op.operationType == Multiply ==> op.rightNumber != 0.0
    ensures ParentValue(discussions, ops, op) == Some(ShownLeftNumber(op))
  {
    var i :| 0 <= i < |ops| && ops[i] == op;
    assert ResultConsistent(discussions, ops, ops[i]);
    var v := ParentValue(discussions, ops, op).value;
    PreviewMatchesServer(v, TypeName(op.operationType), op.rightNumber);
    ParseTypeName(op.operationType);
    LeftNumberUndoesResult(v, TypeName(op.operationType), op.rightNumber);
  }

  /** A multiplication by zero the server accepts: 10 × 0 stores 0, and the
      line then shows 0 × 0 = 0 instead of 10 × 0 = 0. */
  lemma MultiplyByZeroHidesLeftNumber()
    ensures var d := Discussion("d", 10.0, "u", "alex", 0);
            var op := Operation("o", "d", None, Multiply, 0.0, 0.0, "u", "alex", 1);
            && StoreInvariant([], [d], [op])
            && ParentValue([d], [op], op) == Some(10.0)
            && ShownLeftNumber(op) == 0.0
  {
    var d := Discussion("d", 10.0, "u", "alex", 0);
    var op := Operation("o", "d", None, Multiply, 0.0, 0.0, "u", "alex", 1);
    assert FindDiscussionById([d], "d") == Some(d);
    assert ResultConsistent([d], [op], op);
  }

  /** One rendered operation line: the record and the left operand shown for it. */
  datatype Line = Line(op: Operation, left: real)

  /** The lines of a forest in the order the page renders them, each child
      shown against its parent's result and each top-level operation against
      the number it replies to, as `AddOperation` already receives it. */
  function Rendered(parentNumber: real, forest: seq<OperationNode>): seq<Line>
    decreases forest
  {
    if forest == [] then []
    else [Line(forest[0].op, parentNumber)]
         + Rendered(forest[0].op.result, forest[0].children)
         + Rendered(parentNumber, forest[1..])
  }

  /** Every line rendered from a built tree shows the value its operation
      was applied to, and its equation holds. */
  lemma {:induction false} RenderedLinesHold(discussions: seq<Discussion>, ops: seq<Operation>, discussionId: string,
                                             parentId: Option<string>, parentNumber: real, forest: seq<OperationNode>)
    requires WellFormed(ops) && ResultsConsistent(discussions, ops)
    requires forall n :: n in forest ==>
               && n.op in ops && n.op.parentId == parentId && n.op.discussionId == discussionId
               && n.children == BuildOperationTree(ops, discussionId, Some(n.op.id))
    requires forall o :: o in ops && o.parentId == parentId && o.discussionId == discussionId ==>
               ParentValue(discussions, ops, o) == Some(parentNumber)
    ensures forall l :: l in Rendered(parentNumber, forest) ==>
              && l.op in ops && l.op.discussionId == discussionId
              && ParentValue(discussions, ops, l.op) == Some(l.left)
              && CalculateResult(l.left, TypeName(l.op.operationType), l.op.rightNumber) == l.op.result
    decreases forest
  {
    if forest != [] {
      var n := forest[0];
      assert n in forest;
      var i :| 0 <= i < |ops| && ops[i] == n.op;
      assert ResultConsistent(discussions, ops, ops[i]);
      PreviewMatchesServer(parentNumber, TypeName(n.op.operationType), n.op.rightNumber);
      ParseTypeName(n.op.operationType);
      TreeShape(ops, discussionId, Some(n.op.id));
      forall n' | n' in n.children
        ensures && n'.op in ops && n'.op.parentId == Some(n.op.id) && n'.op.discussionId == discussionId
                && n'.children == BuildOperationTree(ops, discussionId, Some(n'.op.id))
      {
        AllNodesMembers(n.children, n');
      }
      IndexOfStored(ops, i);
      RenderedLinesHold(discussions, ops, discussionId, Some(n.op.id), n.op.result, n.children);
      RenderedLinesHold(discussions, ops, discussionId, parentId, parentNumber, forest[1..]);
    }
  }

  /** The page of a stored discussion: its tree rendered from the starting number. */
  function DiscussionPage(ops: seq<Operation>, d: Discussion): seq<Line>
    requires WellFormed(ops)
  {
    Rendered(d.startingNumber, BuildOperationTree(ops, d.id, None))
  }

  /** Every line of a discussion's page shows the value its operation was
      applied to, including after a multiplication by zero. */
  lemma DiscussionPageHolds(discussions: seq<Discussion>, ops: seq<Operation>, d: Discussion)
    requires WellFormed(ops) && ResultsConsistent(discussions, ops)
    requires FindDiscussionById(discussions, d.id) == Some(d)
    ensures forall l :: l in DiscussionPage(ops, d) ==>
              && l.op in ops && l.op.discussionId == d.id
              && ParentValue(discussions, ops, l.op) == Some(l.left)
              && CalculateResult(l.left, TypeName(l.op.operationType), l.op.rightNumber) == l.op.result
  {
    var forest := BuildOperationTree(ops, d.id, None);
    TreeShape(ops, d.id, None);
    forall n | n in forest
      ensures && n.op in ops && n.op.parentId == None && n.op.discussionId == d.id
              && n.children == BuildOperationTree(ops, d.id, Some(n.op.id))
    {
      AllNodesMembers(forest, n);
    }
    RenderedLinesHold(discussions, ops, d.id, None, d.startingNumber, forest);
  }
}
