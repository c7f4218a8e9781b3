/** The records the backend stores and the shapes of its requests and
    responses (backend/src/types/index.ts). Dates are integer timestamps and
    JavaScript numbers are exact reals. */
module Types {
  import opened JsArrays

  /** A registered user; `password` holds the hash, never the plain text. */
  datatype User = User(id: string, username: string, password: string, createdAt: int)

  /** A discussion anchored by its starting number. */
  datatype Discussion = Discussion(
    id: string,
    startingNumber: real,
    createdBy: string,
    createdByUsername: string,
    createdAt: int)

  /** The four operation types a stored operation can have. */
  datatype OperationType = Add | Subtract | Multiply | Divide

  /** A reply: `parentId == None` replies to the discussion's starting number,
      `Some(id)` to the operation with that id. */
  datatype Operation = Operation(
    id: string,
    discussionId: string,
    parentId: Option<string>,
    operationType: OperationType,
    rightNumber: real,
    result: real,
    createdBy: string,
    createdByUsername: string,
    createdAt: int)

  /** An operation together with the replies to it (`OperationWithChildren`):
      the stored record is carried unchanged in `op`. */
  datatype OperationNode = OperationNode(op: Operation, children: seq<OperationNode>)

  /** A discussion together with its operation tree (`DiscussionWithOperations`). */
  datatype DiscussionWithOperations = DiscussionWithOperations(discussion: Discussion, operations: seq<OperationNode>)

  /** The authenticated caller the token middleware attaches to a request. */
  datatype AuthUser = AuthUser(userId: string, username: string)

  /** A JSON body field that the handlers test with `typeof x !== 'number' || isNaN(x)`:
      an absent field or one of another JSON type is `NotNumber`. */
  datatype NumberField = NotNumber | NaN | Number(value: real)

  /** The `parentId` field of a create-operation body: JSON `null`, absent
      (`undefined`), or a string. */
  datatype ParentField = NullParent | Absent | ParentId(id: string)

  datatype CreateOperationRequest = CreateOperationRequest(
    discussionId: Option<string>,
    parentId: ParentField,
    operationType: Option<string>,
    rightNumber: NumberField)

  /** The JSON body of a response. */
  datatype Payload =
    | ErrorMessage(error: string)
    | OperationPayload(operation: Operation)
    | OperationList(operations: seq<Operation>)
    | DiscussionPayload(discussion: Discussion)
    | DiscussionTree(tree: DiscussionWithOperations)
    | DiscussionTrees(trees: seq<DiscussionWithOperations>)
    | UserCreated(message: string, userId: string)
    | LoginSuccess(token: string, userId: string, username: string)

  /** What a handler sends: an HTTP status code and a JSON body. */
  datatype Response = Response(status: int, payload: Payload)

  /** JavaScript truthiness of an optional string field: neither missing nor "". */
  predicate Truthy(s: Option<string>)
  {
    s.Some? && s.value != ""
  }
}
