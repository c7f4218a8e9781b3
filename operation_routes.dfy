/** The operation routes (backend/src/routes/operations.ts): creating a reply
    and the two public reads. */
module OperationRoutes {
  import opened JsArrays
  import opened Types
  import opened Arithmetic
  import opened Storage

  const MissingFields := "discussionId, operationType, and rightNumber are required"
  const UnknownType := "operationType must be one of: add, subtract, multiply, divide"
  const DiscussionNotFound := "Discussion not found"
  const ParentNotFound := "Parent operation not found"
  const ParentElsewhere := "Parent operation does not belong to the specified discussion"
  const DivisionByZero := "Cannot divide by zero"
  const OperationNotFound := "Operation not found"

  /** The first check: `discussionId` and `operationType` truthy, `rightNumber` a number and not NaN. */
  predicate FieldsPresent(request: CreateOperationRequest)
  {
    Truthy(request.discussionId) && Truthy(request.operationType) && request.rightNumber.Number?
  }

  /** What `findOperationById(parentId)` finds for a non-null `parentId`; an
      absent field looks up `undefined`, which no stored id equals. */
  function ParentLookup(ops: seq<Operation>, parentId: ParentField): Option<Operation>
    requires parentId != NullParent
  {
    match parentId
    case Absent => None
    case ParentId(id) => FindOperationById(ops, id)
  }

  /** The request passes every check of the handler against these tables. */
  predicate Accepted(discussions: seq<Discussion>, ops: seq<Operation>, request: CreateOperationRequest)
  {
    && FieldsPresent(request)
    && ParseOperationType(request.operationType.value).Some?
    && FindDiscussionById(discussions, request.discussionId.value).Some?
    && (request.parentId != NullParent ==>
          && ParentLookup(ops, request.parentId).Some?
          && ParentLookup(ops, request.parentId).value.discussionId == request.discussionId.value)
    && (ParseOperationType(request.operationType.value).value == Divide ==> request.rightNumber.value != 0.0)
  }

  /** `parentNumber`: the starting number when replying to the discussion,
      otherwise the parent operation's stored result. */
  function ParentNumber(discussions: seq<Discussion>, ops: seq<Operation>, request: CreateOperationRequest): real
    requires Accepted(discussions, ops, request)
  {
    if request.parentId == NullParent then FindDiscussionById(discussions, request.discussionId.value).value.startingNumber
    else ParentLookup(ops, request.parentId).value.result
  }

  /** POST /api/operations. `id` stands for `generateId()` and `now` for the
      creation time; the caller is the authenticated `user`. */
  method CreateOperation(store: Store, request: CreateOperationRequest, user: AuthUser, id: string, now: int)
    returns (response: Response)
    requires store.Valid()
    requires forall o :: o in store.operations ==> o.id != id
    modifies store
    ensures store.Valid()
    ensures store.users == old(store.users) && store.discussions == old(store.discussions)
    // the rejections, in the order the handler tries them
    ensures !FieldsPresent(request) ==> response == Response(400, ErrorMessage(MissingFields))
    ensures FieldsPresent(request) && ParseOperationType(request.operationType.value).None? ==>
              response == Response(400, ErrorMessage(UnknownType))
    ensures && FieldsPresent(request) && ParseOperationType(request.operationType.value).Some?
            && FindDiscussionById(old(store.discussions), request.discussionId.value).None? ==>
              response == Response(404, ErrorMessage(DiscussionNotFound))
    ensures && FieldsPresent(request) && ParseOperationType(request.operationType.value).Some?
            && FindDiscussionById(old(store.discussions), request.discussionId.value).Some?
            && request.parentId != NullParent ==>
              && (ParentLookup(old(store.operations), request.parentId).None? ==>
                    response == Response(404, ErrorMessage(ParentNotFound)))
              && (&& ParentLookup(old(store.operations), request.parentId).Some?
                  && ParentLookup(old(store.operations), request.parentId).value.discussionId != request.discussionId.value ==>
                    response == Response(400, ErrorMessage(ParentElsewhere)))
    ensures && FieldsPresent(request) && ParseOperationType(request.operationType.value) == Some(Divide)
            && FindDiscussionById(old(store.discussions), request.discussionId.value).Some?
            && (request.parentId != NullParent ==>
                  && ParentLookup(old(store.operations), request.parentId).Some?
                  && ParentLookup(old(store.operations), request.parentId).value.discussionId == request.discussionId.value)
            && request.rightNumber.value == 0.0 ==>
              response == Response(400, ErrorMessage(DivisionByZero))
    // a rejected request leaves the table as it was
    ensures !Accepted(old(store.discussions), old(store.operations), request) ==>
              response.status != 201 && store.operations == old(store.operations)
    // an accepted one appends exactly one record, computed from the parent's value
    ensures Accepted(old(store.discussions), old(store.operations), request) ==>
              var created := NewOperation(old(store.discussions), old(store.operations), request, user, id, now);
              && store.operations == old(store.operations) + [created]
              && response == Response(201, OperationPayload(created))
  {
    if !Truthy(request.discussionId) || !Truthy(request.operationType) || !request.rightNumber.Number? {
      return Response(400, ErrorMessage(MissingFields));
    }
    var discussionId := request.discussionId.value;
    var rightNumber := request.rightNumber.value;
    var parsed := ParseOperationType(request.operationType.value);
    if parsed.None? {
      return Response(400, ErrorMessage(UnknownType));
    }
    var operationType := parsed.value;

    var discussion := FindDiscussionById(store.discussions, discussionId);
    if discussion.None? {
      return Response(404, ErrorMessage(DiscussionNotFound));
    }

    var parentNumber: real;
    if request.parentId == NullParent {
      parentNumber := discussion.value.startingNumber;
    } else {
      var parentOperation := ParentLookup(store.operations, request.parentId);
      if parentOperation.None? {
        return Response(404, ErrorMessage(ParentNotFound));
      }
      if parentOperation.value.discussionId != discussionId {
        return Response(400, ErrorMessage(ParentElsewhere));
      }
      parentNumber := parentOperation.value.result;
    }

    // the `switch` on the type is `Apply`; its divide case refuses a zero operand first
    if operationType == Divide && rightNumber == 0.0 {
      return Response(400, ErrorMessage(DivisionByZero));
    }
    var result := Apply(operationType, parentNumber, rightNumber);
    var parentId := if request.parentId == NullParent then None else Some(request.parentId.id);
    var created := Operation(id, discussionId, parentId, operationType, rightNumber, result,
                             user.userId, user.username, now);
    assert created == NewOperation(store.discussions, store.operations, request, user, id, now);
    store.AddOperation(created);
    response := Response(201, OperationPayload(created));
  }

  /** The record an accepted request appends. It carries the request's
      discussion and operation type, its parent (if any) is stored earlier
      in the same discussion, and its result is the parent's value combined
      with the right operand. */
  function NewOperation(discussions: seq<Discussion>, ops: seq<Operation>, request: CreateOperationRequest,
                        user: AuthUser, id: string, now: int): (created: Operation)
    requires Accepted(discussions, ops, request)
    ensures created.id == id && created.discussionId == request.discussionId.value
    ensures created.parentId == if request.parentId == NullParent then None else Some(request.parentId.id)
    ensures created.rightNumber == request.rightNumber.value
    ensures created.createdBy == user.userId && created.createdByUsername == user.username && created.createdAt == now
    ensures TypeName(created.operationType) == request.operationType.value
    ensures created.parentId.Some? ==>
              OperationIndex(ops, created.parentId.value) < |ops| &&
              ops[OperationIndex(ops, created.parentId.value)].discussionId == created.discussionId
    ensures ResultConsistent(discussions, ops, created)
  {
    var t := ParseOperationType(request.operationType.value).value;
    var created := Operation(id, request.discussionId.value,
                             if request.parentId == NullParent then None else Some(request.parentId.id),
                             t, request.rightNumber.value,
                             Apply(t, ParentNumber(discussions, ops, request), request.rightNumber.value),
                             user.userId, user.username, now);
    if request.parentId == NullParent then created
    else
      StoredParentPrecedes(discussions, ops, request);
      created
  }

  /** An accepted request names a parent that is stored, in its discussion,
      and whose value is the one `ParentValue` reads back from the table. */
  lemma StoredParentPrecedes(discussions: seq<Discussion>, ops: seq<Operation>, request: CreateOperationRequest)
    requires Accepted(discussions, ops, request)
    requires request.parentId != NullParent
    ensures request.parentId.ParentId?
    ensures OperationIndex(ops, request.parentId.id) < |ops|
    ensures ops[OperationIndex(ops, request.parentId.id)] == ParentLookup(ops, request.parentId).value
  {
    FindOperationAtIndex(ops, request.parentId.id);
  }

  /** GET /api/operations/discussion/:discussionId. */
  method ListDiscussionOperations(store: Store, discussionId: string) returns (response: Response)
    ensures FindDiscussionById(store.discussions, discussionId).None? ==>
              response == Response(404, ErrorMessage(DiscussionNotFound))
    ensures FindDiscussionById(store.discussions, discussionId).Some? ==>
              && response.status == 200 && response.payload.OperationList?
              && response.payload.operations == GetOperationsByDiscussionId(store.operations, discussionId)
  {
    var discussion := FindDiscussionById(store.discussions, discussionId);
    if discussion.None? {
      return Response(404, ErrorMessage(DiscussionNotFound));
    }
    response := Response(200, OperationList(GetOperationsByDiscussionId(store.operations, discussionId)));
  }

  /** GET /api/operations/:id. */
  method GetOperation(store: Store, id: string) returns (response: Response)
    ensures response.status == 404 <==> forall o :: o in store.operations ==> o.id != id
    ensures response.status == 404 ==> response.payload == ErrorMessage(OperationNotFound)
    ensures response.status != 404 ==>
              && response.status == 200 && response.payload.OperationPayload?
              && response.payload.operation in store.operations && response.payload.operation.id == id
              && response.payload.operation == FindOperationById(store.operations, id).value
  {
    var operation := FindOperationById(store.operations, id);
    if operation.None? {
      return Response(404, ErrorMessage(OperationNotFound));
    }
    response := Response(200, OperationPayload(operation.value));
  }
}
