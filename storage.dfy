/** The in-memory store (backend/src/data/storage.ts): three append-only
    tables, the lookups over them, and the recursive operation-tree builder. */
module Storage {
  import opened JsArrays
  import opened Types
  import opened Arithmetic

  // ---------------------------------------------------------------- lookups

  /** `findUserByUsername`: the first user with that name. */
  function FindUserByUsername(users: seq<User>, username: string): (r: Option<User>)
    ensures r.None? <==> forall j :: 0 <= j < |users| ==> users[j].username != username
    ensures r.Some? ==> exists k :: 0 <= k < |users| && users[k] == r.value && r.value.username == username &&
                                    forall j :: 0 <= j < k ==> users[j].username != username
  {
    Find(users, (u: User) => u.username == username)
  }

  /** `findUserById`: the first user with that id. */
  function FindUserById(users: seq<User>, id: string): (r: Option<User>)
    ensures r.None? <==> forall j :: 0 <= j < |users| ==> users[j].id != id
    ensures r.Some? ==> exists k :: 0 <= k < |users| && users[k] == r.value && r.value.id == id &&
                                    forall j :: 0 <= j < k ==> users[j].id != id
  {
    Find(users, (u: User) => u.id == id)
  }

  /** `findDiscussionById`: the first discussion with that id. */
  function FindDiscussionById(discussions: seq<Discussion>, id: string): (r: Option<Discussion>)
    ensures r.None? <==> forall j :: 0 <= j < |discussions| ==> discussions[j].id != id
    ensures r.Some? ==> exists k :: 0 <= k < |discussions| && discussions[k] == r.value && r.value.id == id &&
                                    forall j :: 0 <= j < k ==> discussions[j].id != id
  {
    Find(discussions, (d: Discussion) => d.id == id)
  }

  /** Position of the first operation with that id, or `|ops|`. */
  function OperationIndex(ops: seq<Operation>, id: string): (k: nat)
    ensures k <= |ops|
    ensures k < |ops| ==> ops[k].id == id
    ensures forall j :: 0 <= j < k ==> ops[j].id != id
  {
    FirstIndex(ops, (o: Operation) => o.id == id)
  }

  /** `findOperationById`: the first operation with that id. */
  function FindOperationById(ops: seq<Operation>, id: string): (r: Option<Operation>)
    ensures r.None? <==> forall j :: 0 <= j < |ops| ==> ops[j].id != id
    ensures r.Some? ==> exists k :: 0 <= k < |ops| && ops[k] == r.value && r.value.id == id &&
                                    forall j :: 0 <= j < k ==> ops[j].id != id
  {
    Find(ops, (o: Operation) => o.id == id)
  }

  /** The lookup returns exactly the record at `OperationIndex`. */
  lemma FindOperationAtIndex(ops: seq<Operation>, id: string)
    ensures FindOperationById(ops, id) ==
            if OperationIndex(ops, id) < |ops| then Some(ops[OperationIndex(ops, id)]) else None
  {
    var k := OperationIndex(ops, id);
    var r := FindOperationById(ops, id);
    if r.Some? {
      var k' :| 0 <= k' < |ops| && ops[k'] == r.value && r.value.id == id &&
                forall j :: 0 <= j < k' ==> ops[j].id != id;
      assert k' == k;
    }
  }

  /** `getOperationsByDiscussionId`: that discussion's operations, in storage order. */
  function GetOperationsByDiscussionId(ops: seq<Operation>, discussionId: string): (r: seq<Operation>)
    ensures forall o :: multiset(r)[o] == if o.discussionId == discussionId then multiset(ops)[o] else 0
  {
    Filter(ops, (o: Operation) => o.discussionId == discussionId)
  }

  /** `getOperationsByParentId`: the replies to the operation `parentId`, in storage order. */
  function GetOperationsByParentId(ops: seq<Operation>, parentId: string): (r: seq<Operation>)
    ensures forall o :: multiset(r)[o] == if o.parentId == Some(parentId) then multiset(ops)[o] else 0
  {
    Filter(ops, (o: Operation) => o.parentId == Some(parentId))
  }

  // ------------------------------------------------------------- invariants

  predicate DistinctUsernames(users: seq<User>)
  {
    forall i, j :: 0 <= i < j < |users| ==> users[i].username != users[j].username
  }

  predicate DistinctOperationIds(ops: seq<Operation>)
  {
    forall i, j :: 0 <= i < j < |ops| ==> ops[i].id != ops[j].id
  }

  /** Every reply names an operation stored before it, in the same discussion. */
  predicate ParentsEarlier(ops: seq<Operation>)
  {
    forall i :: 0 <= i < |ops| && ops[i].parentId.Some? ==>
      OperationIndex(ops, ops[i].parentId.value) < i &&
      ops[OperationIndex(ops, ops[i].parentId.value)].discussionId == ops[i].discussionId
  }

  /** The shape the create-operation handler keeps: the parent links form a
      forest whose edges point back in storage order. */
  predicate WellFormed(ops: seq<Operation>)
  {
    DistinctOperationIds(ops) && ParentsEarlier(ops)
  }

  /** The value an operation replies to: its discussion's starting number, or
      its parent operation's result. */
  function ParentValue(discussions: seq<Discussion>, ops: seq<Operation>, op: Operation): Option<real>
  {
    match op.parentId
    case None =>
      (match FindDiscussionById(discussions, op.discussionId)
       case Some(d) => Some(d.startingNumber)
       case None => None)
    case Some(pid) =>
      var k := OperationIndex(ops, pid);
      if k < |ops| then Some(ops[k].result) else None
  }

  /** Every stored result is its operation applied to the value it replies to. */
  predicate ResultConsistent(discussions: seq<Discussion>, ops: seq<Operation>, op: Operation)
  {
    FindDiscussionById(discussions, op.discussionId).Some? &&
    ParentValue(discussions, ops, op).Some? &&
    (op.operationType == Divide ==> op.rightNumber != 0.0) &&
    op.result == Apply(op.operationType, ParentValue(discussions, ops, op).value, op.rightNumber)
  }

  predicate ResultsConsistent(discussions: seq<Discussion>, ops: seq<Operation>)
  {
    forall i :: 0 <= i < |ops| ==> ResultConsistent(discussions, ops, ops[i])
  }

  predicate StoreInvariant(users: seq<User>, discussions: seq<Discussion>, ops: seq<Operation>)
  {
    DistinctUsernames(users) && WellFormed(ops) && ResultsConsistent(discussions, ops)
  }

  // ------------------------------------------------------------- the store

  /** The module-level `users`, `discussions` and `operations` arrays. The
      handlers only ever append to them. */
  class Store {
    var users: seq<User>
    var discussions: seq<Discussion>
    var operations: seq<Operation>

    ghost predicate Valid()
      reads this
    {
      StoreInvariant(users, discussions, operations)
    }

    constructor ()
      ensures Valid()
      ensures users == [] && discussions == [] && operations == []
    {
      users, discussions, operations := [], [], [];
    }

    /** `operations.push(op)` for a record the table can take: its id is
        fresh, its parent (if any) is stored in the same discussion, and its
        result is its parent's value combined with its right operand. */
    method AddOperation(op: Operation)
      requires Valid()
      requires forall o :: o in operations ==> o.id != op.id
      requires op.parentId.Some? ==>
                 OperationIndex(operations, op.parentId.value) < |operations| &&
                 operations[OperationIndex(operations, op.parentId.value)].discussionId == op.discussionId
      requires ResultConsistent(discussions, operations, op)
      modifies this
      ensures Valid()
      ensures users == old(users) && discussions == old(discussions)
      ensures operations == old(operations) + [op]
    {
      AppendOperationPreserves(discussions, operations, op);
      operations := operations + [op];
    }

    /** `discussions.push(d)`. */
    method AddDiscussion(d: Discussion)
      requires Valid()
      modifies this
      ensures Valid()
      ensures users == old(users) && operations == old(operations)
      ensures discussions == old(discussions) + [d]
    {
      AppendDiscussionPreserves(discussions, operations, d);
      discussions := discussions + [d];
    }

    /** `users.push(u)` for a user whose name is not taken. */
    method AddUser(u: User)
      requires Valid()
      requires FindUserByUsername(users, u.username).None?
      modifies this
      ensures Valid()
      ensures discussions == old(discussions) && operations == old(operations)
      ensures users == old(users) + [u]
    {
      AppendUserPreserves(users, u);
      users := users + [u];
    }
  }

  // ----------------------------------------------------------- the tree

  /** The filter `operation.discussionId === discussionId && operation.parentId === parentId`. */
  function Replies(discussionId: string, parentId: Option<string>): Operation -> bool
  {
    (o: Operation) => o.discussionId == discussionId && o.parentId == parentId
  }

  /** `directOperations`: the replies to `parentId` within the discussion, in storage order. */
  function DirectOperations(ops: seq<Operation>, discussionId: string, parentId: Option<string>): seq<Operation>
  {
    Filter(ops, Replies(discussionId, parentId))
  }

  /** The termination measure of `buildOperationTree`: the root ranks above
      every operation, and a later operation ranks below an earlier one. */
  function Rank(ops: seq<Operation>, parentId: Option<string>): nat
  {
    match parentId
    case None => |ops| + 1
    case Some(id) => |ops| - OperationIndex(ops, id)
  }

  /** With distinct ids, an operation's id leads back to its own position. */
  lemma IndexOfStored(ops: seq<Operation>, i: nat)
    requires DistinctOperationIds(ops) && i < |ops|
    ensures OperationIndex(ops, ops[i].id) == i
  {
  }

  /** A reply ranks strictly below what it replies to. */
  lemma ChildRankSmaller(ops: seq<Operation>, discussionId: string, parentId: Option<string>, child: Operation)
    requires WellFormed(ops)
    requires child in DirectOperations(ops, discussionId, parentId)
    ensures Rank(ops, Some(child.id)) < Rank(ops, parentId)
  {
    FilterMembers(ops, Replies(discussionId, parentId), child);
    var i :| 0 <= i < |ops| && ops[i] == child;
    IndexOfStored(ops, i);
  }

  /** Every operation placed directly under `parentId` is a stored
      operation of the discussion that replies to `parentId`. */
  lemma DirectMembers(ops: seq<Operation>, discussionId: string, parentId: Option<string>)
    ensures forall o :: o in DirectOperations(ops, discussionId, parentId) ==>
              o in ops && o.discussionId == discussionId && o.parentId == parentId
  {
    forall o | o in DirectOperations(ops, discussionId, parentId)
      ensures o in ops && o.discussionId == discussionId && o.parentId == parentId
    {
      FilterMembers(ops, Replies(discussionId, parentId), o);
    }
  }

  /** `buildOperationTree(discussionId, parentId)`: the operations of the
      discussion that reply to `parentId`, in storage order, each carrying the
      tree of its own replies. It is defined, and so terminates, on every
      well-formed table. */
  function BuildOperationTree(ops: seq<Operation>, discussionId: string, parentId: Option<string>): (forest: seq<OperationNode>)
    requires WellFormed(ops)
    ensures forall n :: n in forest ==>
              n.op in ops && n.op.discussionId == discussionId && n.op.parentId == parentId
    decreases Rank(ops, parentId)
  {
    var direct := DirectOperations(ops, discussionId, parentId);
    DirectMembers(ops, discussionId, parentId);
    seq(|direct|, k requires 0 <= k < |direct| =>
      ChildRankSmaller(ops, discussionId, parentId, direct[k]);
      OperationNode(direct[k], BuildOperationTree(ops, discussionId, Some(direct[k].id))))
  }

  // ------------------------------------------------- appending keeps lookups

  /** Appending a discussion does not change which discussion an existing id finds. */
  lemma FindDiscussionAppend(discussions: seq<Discussion>, d: Discussion, id: string)
    requires FindDiscussionById(discussions, id).Some?
    ensures FindDiscussionById(discussions + [d], id) == FindDiscussionById(discussions, id)
  {
    var r := FindDiscussionById(discussions, id);
    var k :| 0 <= k < |discussions| && discussions[k] == r.value && r.value.id == id &&
             forall j :: 0 <= j < k ==> discussions[j].id != id;
    var ds' := discussions + [d];
    assert ds'[k] == discussions[k];
    var r' := FindDiscussionById(ds', id);
    var k' :| 0 <= k' < |ds'| && ds'[k'] == r'.value && r'.value.id == id &&
              forall j :: 0 <= j < k' ==> ds'[j].id != id;
    assert k' == k;
  }

  /** Appending an operation does not move the first occurrence of an existing id. */
  lemma OperationIndexAppend(ops: seq<Operation>, op: Operation, id: string)
    requires OperationIndex(ops, id) < |ops|
    ensures OperationIndex(ops + [op], id) == OperationIndex(ops, id)
  {
    var k := OperationIndex(ops, id);
    assert (ops + [op])[k] == ops[k];
  }

  /** Appending an operation whose id is fresh, whose parent is an existing
      operation of the same discussion (or the starting number), and whose
      result is that parent's value combined with its right operand keeps
      the table well formed and consistent. */
  lemma AppendOperationPreserves(discussions: seq<Discussion>, ops: seq<Operation>, op: Operation)
    requires WellFormed(ops) && ResultsConsistent(discussions, ops)
    requires forall o :: o in ops ==> o.id != op.id
    requires op.parentId.Some? ==>
               OperationIndex(ops, op.parentId.value) < |ops| &&
               ops[OperationIndex(ops, op.parentId.value)].discussionId == op.discussionId
    requires ResultConsistent(discussions, ops, op)
    ensures WellFormed(ops + [op]) && ResultsConsistent(discussions, ops + [op])
  {
    AppendKeepsParentsEarlier(ops, op);
    AppendKeepsResults(discussions, ops, op);
  }

  /** Ids stay distinct and every parent still precedes its reply. */
  lemma AppendKeepsParentsEarlier(ops: seq<Operation>, op: Operation)
    requires WellFormed(ops)
    requires forall o :: o in ops ==> o.id != op.id
    requires op.parentId.Some? ==>
               OperationIndex(ops, op.parentId.value) < |ops| &&
               ops[OperationIndex(ops, op.parentId.value)].discussionId == op.discussionId
    ensures WellFormed(ops + [op])
  {
    var ops' := ops + [op];
    forall i, j | 0 <= i < j < |ops'| ensures ops'[i].id != ops'[j].id {
      if j < |ops| {
        assert ops'[i] == ops[i] && ops'[j] == ops[j];
      } else {
        assert ops'[i] in ops;
      }
    }
    forall i | 0 <= i < |ops'| && ops'[i].parentId.Some?
      ensures OperationIndex(ops', ops'[i].parentId.value) < i
      ensures ops'[OperationIndex(ops', ops'[i].parentId.value)].discussionId == ops'[i].discussionId
    {
      var pid := ops'[i].parentId.value;
      if i < |ops| {
        assert ops'[i] == ops[i];
      }
      OperationIndexAppend(ops, op, pid);
      assert ops'[OperationIndex(ops, pid)] == ops[OperationIndex(ops, pid)];
    }
  }

  /** A value some operation already replies to is unchanged by an append. */
  lemma ParentValueAppend(discussions: seq<Discussion>, ops: seq<Operation>, op: Operation, o: Operation)
    requires ParentValue(discussions, ops, o).Some?
    ensures ParentValue(discussions, ops + [op], o) == ParentValue(discussions, ops, o)
  {
    if o.parentId.Some? {
      OperationIndexAppend(ops, op, o.parentId.value);
      assert (ops + [op])[OperationIndex(ops, o.parentId.value)] == ops[OperationIndex(ops, o.parentId.value)];
    }
  }

  /** Results already consistent stay so, and the appended one is. */
  lemma AppendKeepsResults(discussions: seq<Discussion>, ops: seq<Operation>, op: Operation)
    requires ResultsConsistent(discussions, ops)
    requires ResultConsistent(discussions, ops, op)
    ensures ResultsConsistent(discussions, ops + [op])
  {
    var ops' := ops + [op];
    forall i | 0 <= i < |ops'| ensures ResultConsistent(discussions, ops', ops'[i]) {
      var o := ops'[i];
      if i < |ops| {
        assert o == ops[i] && ResultConsistent(discussions, ops, o);
      }
      ParentValueAppend(discussions, ops, op, o);
    }
  }

  /** Appending a discussion keeps every stored result consistent. */
  lemma AppendDiscussionPreserves(discussions: seq<Discussion>, ops: seq<Operation>, d: Discussion)
    requires ResultsConsistent(discussions, ops)
    ensures ResultsConsistent(discussions + [d], ops)
  {
    forall i | 0 <= i < |ops| ensures ResultConsistent(discussions + [d], ops, ops[i]) {
      assert ResultConsistent(discussions, ops, ops[i]);
      FindDiscussionAppend(discussions, d, ops[i].discussionId);
    }
  }

  /** Appending a user whose name is not taken keeps usernames distinct. */
  lemma AppendUserPreserves(users: seq<User>, u: User)
    requires DistinctUsernames(users)
    requires FindUserByUsername(users, u.username).None?
    ensures DistinctUsernames(users + [u])
  {
  }
}
