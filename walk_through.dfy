/** The API walk-through of backend/test-api.js replayed against the model:
    alex registers and logs in, starts a discussion at 10, replies 10 + 5,
    15 × 2 under that reply and 10 ÷ 2 beside it, and a division by zero is
    refused. */
module WalkThrough {
  import opened JsArrays
  import opened Types
  import opened Arithmetic
  import opened Storage
  import opened OperationTree
  import opened AuthRoutes
  import opened DiscussionRoutes
  import opened OperationRoutes

  const Alex := AuthUser("u1", "alex")
  const Ten := Discussion("d1", 10.0, "u1", "alex", 2)

  const AddFive := CreateOperationRequest(Some("d1"), NullParent, Some("add"), Number(5.0))
  const TimesTwo := CreateOperationRequest(Some("d1"), ParentId("o1"), Some("multiply"), Number(2.0))
  const HalveTen := CreateOperationRequest(Some("d1"), NullParent, Some("divide"), Number(2.0))
  const DivideByZero := CreateOperationRequest(Some("d1"), NullParent, Some("divide"), Number(0.0))

  const Fifteen := Operation("o1", "d1", None, Add, 5.0, 15.0, "u1", "alex", 3)
  const Thirty := Operation("o2", "d1", Some("o1"), Multiply, 2.0, 30.0, "u1", "alex", 4)
  const Five := Operation("o3", "d1", None, Divide, 2.0, 5.0, "u1", "alex", 5)

  /** Each reply of the walk-through passes the handler's checks and stores
      the expected result; the division by zero reaches the last check. */
  lemma RepliesOfTheWalkThrough()
    ensures Accepted([Ten], [], AddFive) && NewOperation([Ten], [], AddFive, Alex, "o1", 3) == Fifteen
    ensures Accepted([Ten], [Fifteen], TimesTwo) && NewOperation([Ten], [Fifteen], TimesTwo, Alex, "o2", 4) == Thirty
    ensures && Accepted([Ten], [Fifteen, Thirty], HalveTen)
            && NewOperation([Ten], [Fifteen, Thirty], HalveTen, Alex, "o3", 5) == Five
    ensures && FieldsPresent(DivideByZero) && ParseOperationType("divide") == Some(Divide)
            && FindDiscussionById([Ten], "d1").Some?
  {
    assert FindDiscussionById([Ten], "d1") == Some(Ten);
    assert FindOperationById([Fifteen], "o1") == Some(Fifteen);
  }

  /** The operations the walk-through stores form a well-formed table. */
  lemma WalkThroughWellFormed()
    ensures WellFormed([Fifteen, Thirty, Five])
  {
    assert OperationIndex([Fifteen, Thirty, Five], "o1") == 0;
  }

  /** The operations replying to the starting number of the walk-through's discussion. */
  lemma TopLevelOfTheWalkThrough()
    ensures DirectOperations([Fifteen, Thirty, Five], "d1", None) == [Fifteen, Five]
  {
    var keep := Replies("d1", None);
    assert keep(Fifteen) && !keep(Thirty) && keep(Five);
    FilterCons(Five, [], keep);
    FilterCons(Thirty, [Five], keep);
    FilterCons(Fifteen, [Thirty, Five], keep);
  }

  /** The operations replying to 10 + 5 = 15. */
  lemma RepliesToFifteen()
    ensures DirectOperations([Fifteen, Thirty, Five], "d1", Some("o1")) == [Thirty]
  {
    var keep := Replies("d1", Some("o1"));
    assert !keep(Fifteen) && keep(Thirty) && !keep(Five);
    FilterCons(Five, [], keep);
    FilterCons(Thirty, [Five], keep);
    FilterCons(Fifteen, [Thirty, Five], keep);
  }

  /** Nothing replies to an operation `id` other than the first. */
  lemma NoRepliesTo(id: string)
    requires id != "o1"
    ensures DirectOperations([Fifteen, Thirty, Five], "d1", Some(id)) == []
  {
    var keep := Replies("d1", Some(id));
    assert !keep(Fifteen) && !keep(Thirty) && !keep(Five);
    FilterCons(Five, [], keep);
    FilterCons(Thirty, [Five], keep);
    FilterCons(Fifteen, [Thirty, Five], keep);
  }

  /** The tree the walk-through prints: 10 + 5 = 15 with 15 × 2 = 30 below
      it, and 10 ÷ 2 = 5 beside it. */
  lemma TreeOfTheWalkThrough()
    ensures WellFormed([Fifteen, Thirty, Five])
    ensures var tree := BuildOperationTree([Fifteen, Thirty, Five], "d1", None);
            && |tree| == 2 && tree[0].op == Fifteen && tree[1].op == Five
            && |tree[0].children| == 1 && tree[0].children[0].op == Thirty
            && tree[0].children[0].children == [] && tree[1].children == []
  {
    var ops := [Fifteen, Thirty, Five];
    WalkThroughWellFormed();
    TopLevelOfTheWalkThrough();
    RepliesToFifteen();
    NoRepliesTo("o2");
    NoRepliesTo("o3");
    TreeNodeAt(ops, "d1", None, 0);
    TreeNodeAt(ops, "d1", None, 1);
    TreeNodeAt(ops, "d1", Some("o1"), 0);
    assert |BuildOperationTree(ops, "d1", Some("o2"))| == 0;
    assert |BuildOperationTree(ops, "d1", Some("o3"))| == 0;
  }

  /** Steps 3 and 4: alex registers and logs in with the same password. */
  method SignUp(store: Store, hash: string -> string, matches: (string, string) -> bool, sign: (string, string) -> string)
    returns (login: Response)
    requires store.Valid() && store.users == []
    requires matches("password123", hash("password123"))
    modifies store
    ensures store.Valid()
    ensures store.discussions == old(store.discussions) && store.operations == old(store.operations)
    ensures login == Response(200, LoginSuccess(sign("u1", "alex"), "u1", "alex"))
  {
    var registered := Register(store, Some("alex"), Some("password123"), hash, "u1", 1);
    assert store.users == [User("u1", "alex", hash("password123"), 1)];
    login := Login(store, Some("alex"), Some("password123"), matches, sign);
  }

  /** Steps 5 to 8 and 12: the discussion at 10, its three replies and the
      refused division by zero. */
  method Discuss(store: Store) returns (stored: seq<Operation>, refused: Response)
    requires store.Valid() && store.discussions == [] && store.operations == []
    modifies store
    ensures stored == [Fifteen, Thirty, Five]
    ensures refused == Response(400, ErrorMessage(OperationRoutes.DivisionByZero))
  {
    var discussion := CreateDiscussion(store, Number(10.0), Alex, "d1", 2);
    assert store.discussions == [Ten];
    RepliesOfTheWalkThrough();
    var first := CreateOperation(store, AddFive, Alex, "o1", 3);
    assert store.operations == [Fifteen];
    stored, refused := Branch(store);
  }

  /** Steps 7, 8 and 12, once 10 + 5 = 15 is stored. */
  method Branch(store: Store) returns (stored: seq<Operation>, refused: Response)
    requires store.Valid() && store.discussions == [Ten] && store.operations == [Fifteen]
    modifies store
    ensures stored == [Fifteen, Thirty, Five]
    ensures refused == Response(400, ErrorMessage(OperationRoutes.DivisionByZero))
  {
    RepliesOfTheWalkThrough();
    var second := CreateOperation(store, TimesTwo, Alex, "o2", 4);
    assert store.operations == [Fifteen, Thirty];
    var third := CreateOperation(store, HalveTen, Alex, "o3", 5);
    stored := store.operations;
    refused := CreateOperation(store, DivideByZero, Alex, "o4", 6);
  }

  /** The walk-through itself, against a fresh store. */
  method ApiWalkThrough(hash: string -> string, matches: (string, string) -> bool, sign: (string, string) -> string)
    returns (login: Response, stored: seq<Operation>, refused: Response)
    requires matches("password123", hash("password123"))
    ensures login == Response(200, LoginSuccess(sign("u1", "alex"), "u1", "alex"))
    ensures stored == [Fifteen, Thirty, Five]
    ensures refused == Response(400, ErrorMessage(OperationRoutes.DivisionByZero))
  {
    var store := new Store();
    login := SignUp(store, hash, matches, sign);
    stored, refused := Discuss(store);
  }
}
