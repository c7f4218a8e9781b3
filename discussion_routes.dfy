/** The discussion routes (backend/src/routes/discussions.ts): starting a
    discussion and the two public reads, which answer with operation trees. */
module DiscussionRoutes {
  import opened JsArrays
  import opened Types
  import opened Storage
  import opened OperationTree

  const InvalidStartingNumber := "Starting number must be a valid number"
  const DiscussionNotFound := "Discussion not found"

  // ------------------------------------------------------------- creating

  /** POST /api/discussions. `id` stands for `generateId()` and `now` for the
      creation time; the caller is the authenticated `user`. */
  method CreateDiscussion(store: Store, startingNumber: NumberField, user: AuthUser, id: string, now: int)
    returns (response: Response)
    requires store.Valid()
    modifies store
    ensures store.Valid()
    ensures store.users == old(store.users) && store.operations == old(store.operations)
    ensures !startingNumber.Number? ==>
              && response == Response(400, ErrorMessage(InvalidStartingNumber))
              && store.discussions == old(store.discussions)
    ensures startingNumber.Number? ==>
              var created := Discussion(id, startingNumber.value, user.userId, user.username, now);
              && store.discussions == old(store.discussions) + [created]
              && response == Response(201, DiscussionPayload(created))
  {
    if !startingNumber.Number? {
      return Response(400, ErrorMessage(InvalidStartingNumber));
    }
    var created := Discussion(id, startingNumber.value, user.userId, user.username, now);
    store.AddDiscussion(created);
    response := Response(201, DiscussionPayload(created));
  }

  // ------------------------------------------------------------- the trees

  /** `{ ...discussion, operations: buildOperationTree(discussion.id) }`. */
  function WithTree(ops: seq<Operation>, d: Discussion): (r: DiscussionWithOperations)
    requires WellFormed(ops)
    ensures r.discussion == d
    ensures forall o :: o in Flatten(r.operations) <==> o in ops && o.discussionId == d.id
    ensures multiset(Flatten(r.operations)) == multiset(GetOperationsByDiscussionId(ops, d.id))
  {
    FlattenedTreeIsDiscussion(ops, d.id);
    DiscussionWithOperations(d, BuildOperationTree(ops, d.id, None))
  }

  /** `discussions.map(...)`: every discussion with its tree, in storage order. */
  function WithTrees(discussions: seq<Discussion>, ops: seq<Operation>): (r: seq<DiscussionWithOperations>)
    requires WellFormed(ops)
    ensures |r| == |discussions|
    ensures forall i :: 0 <= i < |r| ==>
              && r[i].discussion == discussions[i]
              && multiset(Flatten(r[i].operations)) == multiset(GetOperationsByDiscussionId(ops, discussions[i].id))
  {
    seq(|discussions|, i requires 0 <= i < |discussions| => WithTree(ops, discussions[i]))
  }

  // ------------------------------------------------------------- newest first

  /** The sort key: `createdAt.getTime()`. */
  function Key(e: DiscussionWithOperations): int
  {
    e.discussion.createdAt
  }

  /** Newest first: keys never increase along the list. */
  predicate NewestFirst(s: seq<DiscussionWithOperations>)
  {
    forall i, j :: 0 <= i < j < |s| ==> Key(s[i]) >= Key(s[j])
  }

  /** The entries created at time `t`, as a filter predicate. */
  function CreatedAt(t: int): DiscussionWithOperations -> bool
  {
    e => Key(e) == t
  }

  /** Places `x` ahead of the first entry that is not newer than it. */
  function Insert(x: DiscussionWithOperations, s: seq<DiscussionWithOperations>): seq<DiscussionWithOperations>
  {
    if s == [] then [x]
    else if Key(s[0]) <= Key(x) then [x] + s
    else [s[0]] + Insert(x, s[1..])
  }

  /** `sort((a, b) => b.createdAt - a.createdAt)`, which is stable: entries
      with the same creation time keep their storage order. */
  function SortNewestFirst(s: seq<DiscussionWithOperations>): (sorted: seq<DiscussionWithOperations>)
    ensures NewestFirst(sorted)
    ensures multiset(sorted) == multiset(s)
  {
    if s == [] then []
    else
      var rest := SortNewestFirst(s[1..]);
      InsertSorted(s[0], rest);
      InsertPermutation(s[0], rest);
      assert s == [s[0]] + s[1..];
      Insert(s[0], rest)
  }

  /** No entry of `s` is newer than `bound`. */
  predicate NoNewerThan(s: seq<DiscussionWithOperations>, bound: int)
  {
    forall j :: 0 <= j < |s| ==> Key(s[j]) <= bound
  }

  /** A list is newest first when its head is no older than the rest and the rest is newest first. */
  lemma NewestFirstCons(e: DiscussionWithOperations, s: seq<DiscussionWithOperations>)
    ensures NewestFirst([e] + s) <==> NoNewerThan(s, Key(e)) && NewestFirst(s)
  {
    var r := [e] + s;
    if NoNewerThan(s, Key(e)) && NewestFirst(s) {
      forall i, j | 0 <= i < j < |r| ensures Key(r[i]) >= Key(r[j]) {
        assert r[j] == s[j - 1];
        if i > 0 {
          assert r[i] == s[i - 1];
        }
      }
    }
    if NewestFirst(r) {
      forall j | 0 <= j < |s| ensures Key(s[j]) <= Key(e) {
        assert r[0] == e && r[j + 1] == s[j];
        assert Key(r[0]) >= Key(r[j + 1]);
      }
      forall i, j | 0 <= i < j < |s| ensures Key(s[i]) >= Key(s[j]) {
        assert r[i + 1] == s[i] && r[j + 1] == s[j];
      }
    }
  }

  /** Inserting an entry no newer than `bound` keeps the list no newer than `bound`. */
  lemma {:induction false} InsertNoNewer(x: DiscussionWithOperations, s: seq<DiscussionWithOperations>, bound: int)
    requires NoNewerThan(s, bound) && Key(x) <= bound
    ensures NoNewerThan(Insert(x, s), bound)
  {
    if s != [] && Key(s[0]) > Key(x) {
      InsertNoNewer(x, s[1..], bound);
      var r := Insert(x, s[1..]);
      forall j | 0 <= j < |[s[0]] + r| ensures Key(([s[0]] + r)[j]) <= bound {
        if j > 0 {
          assert ([s[0]] + r)[j] == r[j - 1];
        }
      }
    }
  }

  /** Inserting into a newest-first list keeps it newest first. */
  lemma {:induction false} InsertSorted(x: DiscussionWithOperations, s: seq<DiscussionWithOperations>)
    requires NewestFirst(s)
    ensures NewestFirst(Insert(x, s))
  {
    if s == [] {
    } else {
      var rest := s[1..];
      assert s == [s[0]] + rest;
      NewestFirstCons(s[0], rest);
      if Key(s[0]) <= Key(x) {
        forall j | 0 <= j < |s| ensures Key(s[j]) <= Key(x) {
          if j > 0 {
            assert s[j] == rest[j - 1];
          }
        }
        NewestFirstCons(x, s);
      } else {
        InsertSorted(x, rest);
        InsertNoNewer(x, rest, Key(s[0]));
        NewestFirstCons(s[0], Insert(x, rest));
      }
    }
  }

  /** Inserting adds exactly `x`. */
  lemma {:induction false} InsertPermutation(x: DiscussionWithOperations, s: seq<DiscussionWithOperations>)
    ensures multiset(Insert(x, s)) == multiset(s) + multiset{x}
  {
    if s != [] && Key(s[0]) > Key(x) {
      InsertPermutation(x, s[1..]);
      assert s == [s[0]] + s[1..];
    }
  }

  /** Inserting `x` changes the entries of each creation time only by
      putting `x` in front of those of its own time. */
  lemma {:induction false} InsertStable(x: DiscussionWithOperations, s: seq<DiscussionWithOperations>, t: int)
    requires NewestFirst(s)
    ensures Filter(Insert(x, s), CreatedAt(t)) == Filter([x], CreatedAt(t)) + Filter(s, CreatedAt(t))
  {
    var p := CreatedAt(t);
    if s == [] || Key(s[0]) <= Key(x) {
      FilterAppend([x], s, p);
      FilterSingle(x, p);
    } else {
      var rest := s[1..];
      assert s == [s[0]] + rest;
      assert NewestFirst(rest);
      InsertStable(x, rest, t);
      FilterAppend([s[0]], rest, p);
      FilterAppend([s[0]], Insert(x, rest), p);
      FilterAppend([x], rest, p);
      FilterSingle(s[0], p);
      FilterSingle(x, p);
      // at most one of `s[0]` and the older `x` was created at `t`
      assert Filter([s[0]], p) == [] || Filter([x], p) == [];
      calc {
        Filter(Insert(x, s), p);
        Filter([s[0]] + Insert(x, rest), p);
        Filter([s[0]], p) + (Filter([x], p) + Filter(rest, p));
        Filter([x], p) + (Filter([s[0]], p) + Filter(rest, p));
        Filter([x], p) + Filter(s, p);
      }
    }
  }

  /** The sort is stable: the entries of each creation time come out in the
      order they went in. */
  lemma {:induction false} SortStable(s: seq<DiscussionWithOperations>, t: int)
    ensures Filter(SortNewestFirst(s), CreatedAt(t)) == Filter(s, CreatedAt(t))
  {
    if s != [] {
      SortStable(s[1..], t);
      InsertStable(s[0], SortNewestFirst(s[1..]), t);
      assert s == [s[0]] + s[1..];
      FilterAppend([s[0]], s[1..], CreatedAt(t));
    }
  }

  // ------------------------------------------------------------- the reads

  /** GET /api/discussions: every discussion with its operation tree, newest
      first, discussions created at the same time in storage order. */
  method ListDiscussions(store: Store) returns (response: Response)
    requires store.Valid()
    ensures response.status == 200 && response.payload.DiscussionTrees?
    ensures var trees := response.payload.trees;
            && NewestFirst(trees)
            && multiset(trees) == multiset(WithTrees(store.discussions, store.operations))
            && (forall t :: Filter(trees, CreatedAt(t)) == Filter(WithTrees(store.discussions, store.operations), CreatedAt(t)))
  {
    var trees := WithTrees(store.discussions, store.operations);
    forall t ensures Filter(SortNewestFirst(trees), CreatedAt(t)) == Filter(trees, CreatedAt(t)) {
      SortStable(trees, t);
    }
    response := Response(200, DiscussionTrees(SortNewestFirst(trees)));
  }

  /** Every entry of the list answers one stored discussion with exactly the
      operations posted to it. */
  lemma ListedTrees(discussions: seq<Discussion>, ops: seq<Operation>, e: DiscussionWithOperations)
    requires WellFormed(ops)
    requires e in multiset(WithTrees(discussions, ops))
    ensures e.discussion in discussions
    ensures multiset(Flatten(e.operations)) == multiset(GetOperationsByDiscussionId(ops, e.discussion.id))
  {
    var i :| 0 <= i < |WithTrees(discussions, ops)| && WithTrees(discussions, ops)[i] == e;
  }

  /** GET /api/discussions/:id. */
  method GetDiscussion(store: Store, id: string) returns (response: Response)
    requires store.Valid()
    ensures response.status == 404 <==> forall d :: d in store.discussions ==> d.id != id
    ensures response.status == 404 ==> response.payload == ErrorMessage(DiscussionNotFound)
    ensures response.status != 404 ==>
              && response.status == 200 && response.payload.DiscussionTree?
              && response.payload.tree.discussion in store.discussions
              && response.payload.tree.discussion.id == id
              && response.payload.tree.discussion == FindDiscussionById(store.discussions, id).value
              && response.payload.tree.operations == BuildOperationTree(store.operations, id, None)
              && multiset(Flatten(response.payload.tree.operations)) ==
                   multiset(GetOperationsByDiscussionId(store.operations, id))
  {
    var discussion := FindDiscussionById(store.discussions, id);
    if discussion.None? {
      return Response(404, ErrorMessage(DiscussionNotFound));
    }
    response := Response(200, DiscussionTree(WithTree(store.operations, discussion.value)));
  }
}
