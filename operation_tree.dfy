/** What `buildOperationTree` promises (backend/src/data/storage.ts:45-54):
    its shape, that flattening a discussion's tree gives back exactly that
    discussion's operations, and that results flow along parent-child edges. */
module OperationTree {
  import opened JsArrays
  import opened Types
  import opened Arithmetic
  import opened Storage

  // ------------------------------------------------------ walking a forest

  /** Every node of a forest, in pre-order. */
  function AllNodes(forest: seq<OperationNode>): seq<OperationNode>
    decreases forest
  {
    if forest == [] then []
    else [forest[0]] + AllNodes(forest[0].children) + AllNodes(forest[1..])
  }

  /** The records of a forest, in pre-order (what a client rendering the tree shows). */
  function Flatten(forest: seq<OperationNode>): seq<Operation>
    decreases forest
  {
    if forest == [] then []
    else [forest[0].op] + Flatten(forest[0].children) + Flatten(forest[1..])
  }

  /** The top-level records of a forest. */
  function Tops(forest: seq<OperationNode>): seq<Operation>
  {
    seq(|forest|, k requires 0 <= k < |forest| => forest[k].op)
  }

  lemma {:induction false} AllNodesMembers(forest: seq<OperationNode>, n: OperationNode)
    ensures n in AllNodes(forest) <==>
            exists k :: 0 <= k < |forest| && (n == forest[k] || n in AllNodes(forest[k].children))
    decreases forest
  {
    if forest != [] {
      AllNodesMembers(forest[1..], n);
      if n in AllNodes(forest[1..]) {
        var k :| 0 <= k < |forest[1..]| && (n == forest[1..][k] || n in AllNodes(forest[1..][k].children));
        assert forest[k + 1] == forest[1..][k];
      }
      if exists k :: 0 <= k < |forest| && (n == forest[k] || n in AllNodes(forest[k].children)) {
        var k :| 0 <= k < |forest| && (n == forest[k] || n in AllNodes(forest[k].children));
        if k > 0 {
          assert forest[1..][k - 1] == forest[k];
        }
      }
    }
  }

  lemma {:induction false} FlattenMembers(forest: seq<OperationNode>, o: Operation)
    ensures o in Flatten(forest) <==>
            exists k :: 0 <= k < |forest| && (o == forest[k].op || o in Flatten(forest[k].children))
    decreases forest
  {
    if forest != [] {
      FlattenMembers(forest[1..], o);
      if o in Flatten(forest[1..]) {
        var k :| 0 <= k < |forest[1..]| && (o == forest[1..][k].op || o in Flatten(forest[1..][k].children));
        assert forest[k + 1] == forest[1..][k];
      }
      if exists k :: 0 <= k < |forest| && (o == forest[k].op || o in Flatten(forest[k].children)) {
        var k :| 0 <= k < |forest| && (o == forest[k].op || o in Flatten(forest[k].children));
        if k > 0 {
          assert forest[1..][k - 1] == forest[k];
        }
      }
    }
  }

  // ---------------------------------------------------- ancestry in the table

  /** Where the parent of the reply at position `i` is stored. */
  function ParentIndex(ops: seq<Operation>, i: nat): (k: nat)
    requires WellFormed(ops) && i < |ops| && ops[i].parentId.Some?
    ensures k < i
  {
    OperationIndex(ops, ops[i].parentId.value)
  }

  /** The operation at position `i` lies in the subtree hanging from
      `parentId`: following parent links from it reaches `parentId`. */
  ghost predicate Descends(ops: seq<Operation>, i: nat, parentId: Option<string>)
    requires WellFormed(ops) && i < |ops|
    decreases i
  {
    ops[i].parentId == parentId ||
    (ops[i].parentId.Some? && Descends(ops, ParentIndex(ops, i), parentId))
  }

  /** Every operation hangs, eventually, from its discussion's starting number. */
  lemma {:induction false} DescendsFromRoot(ops: seq<Operation>, i: nat)
    requires WellFormed(ops) && i < |ops|
    ensures Descends(ops, i, None)
    decreases i
  {
    if ops[i].parentId.Some? {
      DescendsFromRoot(ops, ParentIndex(ops, i));
    }
  }

  /** One step up the parent links. */
  lemma DescendsStep(ops: seq<Operation>, i: nat, j: nat)
    requires WellFormed(ops) && i < |ops| && j < |ops|
    ensures Descends(ops, i, Some(ops[j].id)) <==>
            ops[i].parentId.Some? &&
            (ParentIndex(ops, i) == j || Descends(ops, ParentIndex(ops, i), Some(ops[j].id)))
  {
    IndexOfStored(ops, j);
  }

  /** Descendants are stored after their ancestors. */
  lemma {:induction false} DescendsLater(ops: seq<Operation>, i: nat, j: nat)
    requires WellFormed(ops) && i < |ops| && j < |ops|
    requires Descends(ops, i, Some(ops[j].id))
    ensures j < i
    decreases i
  {
    DescendsStep(ops, i, j);
    if ParentIndex(ops, i) != j {
      DescendsLater(ops, ParentIndex(ops, i), j);
    }
  }

  /** A subtree stays inside one discussion. */
  lemma {:induction false} DescendsSameDiscussion(ops: seq<Operation>, i: nat, j: nat)
    requires WellFormed(ops) && i < |ops| && j < |ops|
    requires Descends(ops, i, Some(ops[j].id))
    ensures ops[i].discussionId == ops[j].discussionId
    decreases i
  {
    DescendsStep(ops, i, j);
    if ParentIndex(ops, i) != j {
      DescendsSameDiscussion(ops, ParentIndex(ops, i), j);
    }
  }

  /** Below `ops[j]` and `ops[j]` replies to `parentId`: then below `parentId`. */
  lemma {:induction false} DescendsThrough(ops: seq<Operation>, i: nat, j: nat, parentId: Option<string>)
    requires WellFormed(ops) && i < |ops| && j < |ops|
    requires Descends(ops, i, Some(ops[j].id)) && ops[j].parentId == parentId
    ensures Descends(ops, i, parentId)
    decreases i
  {
    DescendsStep(ops, i, j);
    if ParentIndex(ops, i) != j {
      DescendsThrough(ops, ParentIndex(ops, i), j, parentId);
    }
  }

  /** Anything below `parentId` is a direct reply to it, or lies below one. */
  lemma {:induction false} TopChild(ops: seq<Operation>, i: nat, parentId: Option<string>) returns (j: nat)
    requires WellFormed(ops) && i < |ops|
    requires Descends(ops, i, parentId)
    ensures j < |ops| && ops[j].parentId == parentId && ops[j].discussionId == ops[i].discussionId
    ensures j == i || Descends(ops, i, Some(ops[j].id))
    decreases i
  {
    if ops[i].parentId == parentId {
      j := i;
    } else {
      var m := ParentIndex(ops, i);
      j := TopChild(ops, m, parentId);
      DescendsStep(ops, i, j);
    }
  }

  /** ... and that direct reply is unique. */
  lemma {:induction false} TopChildUnique(ops: seq<Operation>, i: nat, j1: nat, j2: nat, parentId: Option<string>)
    requires WellFormed(ops) && i < |ops| && j1 < |ops| && j2 < |ops|
    requires ops[j1].parentId == parentId && ops[j2].parentId == parentId
    requires j1 == i || Descends(ops, i, Some(ops[j1].id))
    requires j2 == i || Descends(ops, i, Some(ops[j2].id))
    ensures j1 == j2
    decreases i
  {
    if j1 == i && j2 == i {
    } else if j1 == i {
      SiblingNotBelow(ops, j1, j2);
    } else if j2 == i {
      SiblingNotBelow(ops, j2, j1);
    } else {
      DescendsStep(ops, i, j1);
      DescendsStep(ops, i, j2);
      TopChildUnique(ops, ParentIndex(ops, i), j1, j2, parentId);
    }
  }

  /** Two replies to the same thing never lie below one another. */
  lemma SiblingNotBelow(ops: seq<Operation>, a: nat, b: nat)
    requires WellFormed(ops) && a < |ops| && b < |ops|
    requires ops[a].parentId == ops[b].parentId
    ensures !Descends(ops, a, Some(ops[b].id))
  {
    if Descends(ops, a, Some(ops[b].id)) {
      DescendsStep(ops, a, b);
      var m := ParentIndex(ops, a);
      assert m == ParentIndex(ops, b);
      if m != b {
        DescendsLater(ops, m, b);
      }
      assert false;
    }
  }

  // -------------------------------------------------- facts about the table

  lemma {:induction false} FilterDistinct(s: seq<Operation>, keep: Operation -> bool)
    requires DistinctOperationIds(s)
    ensures DistinctOperationIds(Filter(s, keep))
  {
    if s != [] {
      FilterDistinct(s[1..], keep);
      var rest := Filter(s[1..], keep);
      forall o | o in rest ensures o.id != s[0].id {
        FilterMembers(s[1..], keep, o);
      }
    }
  }

  lemma {:induction false} DistinctCount(s: seq<Operation>, o: Operation)
    requires DistinctOperationIds(s)
    ensures multiset(s)[o] == if o in s then 1 else 0
  {
    if s != [] {
      assert s == [s[0]] + s[1..];
      DistinctCount(s[1..], o);
    }
  }

  lemma DistinctSameMembers(a: seq<Operation>, b: seq<Operation>)
    requires DistinctOperationIds(a) && DistinctOperationIds(b)
    requires forall o :: o in a <==> o in b
    ensures multiset(a) == multiset(b)
  {
    forall o ensures multiset(a)[o] == multiset(b)[o] {
      DistinctCount(a, o);
      DistinctCount(b, o);
    }
  }

  /** No id of `a` occurs in `b`. */
  predicate Apart(a: seq<Operation>, b: seq<Operation>)
  {
    forall x, y :: x in a && y in b ==> x.id != y.id
  }

  lemma DistinctConcat(a: seq<Operation>, b: seq<Operation>)
    requires DistinctOperationIds(a) && DistinctOperationIds(b) && Apart(a, b)
    ensures DistinctOperationIds(a + b)
  {
    forall i, j | 0 <= i < j < |a + b| ensures (a + b)[i].id != (a + b)[j].id {
      if j < |a| {
      } else if i >= |a| {
        assert (a + b)[i] == b[i - |a|] && (a + b)[j] == b[j - |a|];
      } else {
        assert (a + b)[i] in a && (a + b)[j] in b;
      }
    }
  }

  // ------------------------------------------------- facts about the tree

  /** A top-level node of `buildOperationTree(d, p)` is a stored operation of
      `d` replying to `p`, and carries its replies' tree as `children`. */
  lemma TreeNodeAt(ops: seq<Operation>, discussionId: string, parentId: Option<string>, k: nat)
    requires WellFormed(ops)
    requires k < |BuildOperationTree(ops, discussionId, parentId)|
    ensures var n := BuildOperationTree(ops, discussionId, parentId)[k];
            && n.op == DirectOperations(ops, discussionId, parentId)[k]
            && n.op in ops && n.op.discussionId == discussionId && n.op.parentId == parentId
            && n.children == BuildOperationTree(ops, discussionId, Some(n.op.id))
  {
    var direct := DirectOperations(ops, discussionId, parentId);
    FilterMembers(ops, Replies(discussionId, parentId), direct[k]);
  }

  /** The top level of `buildOperationTree(d, p)` is exactly the operations of
      `d` that reply to `p`, in storage order. */
  lemma TreeTopLevel(ops: seq<Operation>, discussionId: string, parentId: Option<string>)
    requires WellFormed(ops)
    ensures Tops(BuildOperationTree(ops, discussionId, parentId)) ==
            Filter(ops, Replies(discussionId, parentId))
  {
  }

  /** At every depth: each node is a stored operation of the discussion, its
      `children` are `buildOperationTree(d, node.id)`, and each child replies
      to that node. */
  lemma {:induction false} TreeShape(ops: seq<Operation>, discussionId: string, parentId: Option<string>)
    requires WellFormed(ops)
    ensures forall n :: n in BuildOperationTree(ops, discussionId, parentId) ==> n.op.parentId == parentId
    ensures forall n :: n in AllNodes(BuildOperationTree(ops, discussionId, parentId)) ==>
              && n.op in ops && n.op.discussionId == discussionId
              && n.children == BuildOperationTree(ops, discussionId, Some(n.op.id))
              && forall c :: c in n.children ==> c.op.parentId == Some(n.op.id)
    decreases Rank(ops, parentId)
  {
    var forest := BuildOperationTree(ops, discussionId, parentId);
    var direct := DirectOperations(ops, discussionId, parentId);
    forall k | 0 <= k < |forest|
      ensures forest[k].op.parentId == parentId
      ensures forall n :: n in AllNodes(forest[k].children) ==>
              && n.op in ops && n.op.discussionId == discussionId
              && n.children == BuildOperationTree(ops, discussionId, Some(n.op.id))
              && forall c :: c in n.children ==> c.op.parentId == Some(n.op.id)
    {
      TreeNodeAt(ops, discussionId, parentId, k);
      ChildRankSmaller(ops, discussionId, parentId, direct[k]);
      TreeShape(ops, discussionId, Some(direct[k].id));
    }
    forall n | n in AllNodes(forest)
      ensures && n.op in ops && n.op.discussionId == discussionId
              && n.children == BuildOperationTree(ops, discussionId, Some(n.op.id))
              && forall c :: c in n.children ==> c.op.parentId == Some(n.op.id)
    {
      AllNodesMembers(forest, n);
      var k :| 0 <= k < |forest| && (n == forest[k] || n in AllNodes(forest[k].children));
      if n == forest[k] {
        TreeNodeAt(ops, discussionId, parentId, k);
        ChildRankSmaller(ops, discussionId, parentId, direct[k]);
        TreeShape(ops, discussionId, Some(direct[k].id));
      }
    }
  }

  /** A node's record followed by the records below it. */
  function Block(n: OperationNode): seq<Operation>
  {
    [n.op] + Flatten(n.children)
  }

  /** Everything in the subtree under `parentId` is a stored operation of
      the discussion lying below `parentId`. */
  lemma {:induction false} TreeMemberSound(ops: seq<Operation>, discussionId: string, parentId: Option<string>, o: Operation)
    returns (i: nat)
    requires WellFormed(ops)
    requires o in Flatten(BuildOperationTree(ops, discussionId, parentId))
    ensures i < |ops| && ops[i] == o && o.discussionId == discussionId && Descends(ops, i, parentId)
    decreases Rank(ops, parentId)
  {
    var forest := BuildOperationTree(ops, discussionId, parentId);
    var direct := DirectOperations(ops, discussionId, parentId);
    FlattenMembers(forest, o);
    var k :| 0 <= k < |forest| && (o == forest[k].op || o in Flatten(forest[k].children));
    TreeNodeAt(ops, discussionId, parentId, k);
    var j :| 0 <= j < |ops| && ops[j] == direct[k];
    if o == forest[k].op {
      i := j;
    } else {
      ChildRankSmaller(ops, discussionId, parentId, direct[k]);
      i := TreeMemberSound(ops, discussionId, Some(direct[k].id), o);
      DescendsThrough(ops, i, j, parentId);
    }
  }

  /** Every stored operation of the discussion lying below `parentId` is in
      the subtree under `parentId`. */
  lemma {:induction false} TreeMemberComplete(ops: seq<Operation>, discussionId: string, parentId: Option<string>, i: nat)
    requires WellFormed(ops) && i < |ops|
    requires ops[i].discussionId == discussionId && Descends(ops, i, parentId)
    ensures ops[i] in Flatten(BuildOperationTree(ops, discussionId, parentId))
    decreases Rank(ops, parentId)
  {
    var forest := BuildOperationTree(ops, discussionId, parentId);
    var direct := DirectOperations(ops, discussionId, parentId);
    var j := TopChild(ops, i, parentId);
    FilterMembers(ops, Replies(discussionId, parentId), ops[j]);
    var k :| 0 <= k < |direct| && direct[k] == ops[j];
    TreeNodeAt(ops, discussionId, parentId, k);
    if j != i {
      ChildRankSmaller(ops, discussionId, parentId, direct[k]);
      TreeMemberComplete(ops, discussionId, Some(direct[k].id), i);
    }
    FlattenMembers(forest, ops[i]);
  }

  /** For one record: `o` is in the subtree under `parentId` exactly when it
      is stored, belongs to the discussion and lies below `parentId`. */
  lemma TreeMemberAt(ops: seq<Operation>, discussionId: string, parentId: Option<string>, o: Operation)
    requires WellFormed(ops)
    ensures o in Flatten(BuildOperationTree(ops, discussionId, parentId)) <==>
            exists i :: 0 <= i < |ops| && ops[i] == o && o.discussionId == discussionId && Descends(ops, i, parentId)
  {
    if o in Flatten(BuildOperationTree(ops, discussionId, parentId)) {
      var i := TreeMemberSound(ops, discussionId, parentId, o);
    }
    if exists i :: 0 <= i < |ops| && ops[i] == o && o.discussionId == discussionId && Descends(ops, i, parentId) {
      var i :| 0 <= i < |ops| && ops[i] == o && o.discussionId == discussionId && Descends(ops, i, parentId);
      TreeMemberComplete(ops, discussionId, parentId, i);
    }
  }

  /** The records of the subtree under `parentId` are exactly the stored
      operations of the discussion lying below `parentId`. */
  lemma TreeMembers(ops: seq<Operation>, discussionId: string, parentId: Option<string>)
    requires WellFormed(ops)
    ensures forall o :: o in Flatten(BuildOperationTree(ops, discussionId, parentId)) <==>
              exists i :: 0 <= i < |ops| && ops[i] == o && o.discussionId == discussionId && Descends(ops, i, parentId)
  {
    forall o
      ensures o in Flatten(BuildOperationTree(ops, discussionId, parentId)) <==>
              exists i :: 0 <= i < |ops| && ops[i] == o && o.discussionId == discussionId && Descends(ops, i, parentId)
    {
      TreeMemberAt(ops, discussionId, parentId, o);
    }
  }

  /** A record in the `k`-th top-level block of the tree under `parentId`
      is stored at some `i` whose top-level ancestor is `direct[k]`. */
  lemma BlockIndex(ops: seq<Operation>, discussionId: string, parentId: Option<string>, k: nat, o: Operation)
    returns (i: nat, j: nat)
    requires WellFormed(ops)
    requires k < |BuildOperationTree(ops, discussionId, parentId)|
    requires o in Block(BuildOperationTree(ops, discussionId, parentId)[k])
    ensures i < |ops| && j < |ops| && ops[i] == o
    ensures ops[j] == DirectOperations(ops, discussionId, parentId)[k] && ops[j].parentId == parentId
    ensures j == i || Descends(ops, i, Some(ops[j].id))
  {
    var forest := BuildOperationTree(ops, discussionId, parentId);
    var direct := DirectOperations(ops, discussionId, parentId);
    TreeNodeAt(ops, discussionId, parentId, k);
    j :| 0 <= j < |ops| && ops[j] == direct[k];
    if o == forest[k].op {
      i := j;
    } else {
      TreeMemberAt(ops, discussionId, Some(direct[k].id), o);
      i :| 0 <= i < |ops| && ops[i] == o && o.discussionId == discussionId && Descends(ops, i, Some(direct[k].id));
    }
  }

  /** Blocks of a forest that are internally distinct and pairwise apart
      flatten to a sequence with distinct ids. */
  lemma {:induction false} ForestDistinct(forest: seq<OperationNode>)
    requires forall k :: 0 <= k < |forest| ==> DistinctOperationIds(Block(forest[k]))
    requires forall k1, k2 :: 0 <= k1 < k2 < |forest| ==> Apart(Block(forest[k1]), Block(forest[k2]))
    ensures DistinctOperationIds(Flatten(forest))
  {
    if forest != [] {
      var rest := forest[1..];
      forall k | 0 <= k < |rest| ensures DistinctOperationIds(Block(rest[k])) {
        assert rest[k] == forest[k + 1];
      }
      forall k1, k2 | 0 <= k1 < k2 < |rest| ensures Apart(Block(rest[k1]), Block(rest[k2])) {
        assert rest[k1] == forest[k1 + 1] && rest[k2] == forest[k2 + 1];
      }
      ForestDistinct(rest);
      var head := Block(forest[0]);
      forall x, y | x in head && y in Flatten(rest) ensures x.id != y.id {
        FlattenMembers(rest, y);
        var k :| 0 <= k < |rest| && (y == rest[k].op || y in Flatten(rest[k].children));
        assert rest[k] == forest[k + 1];
        assert Apart(head, Block(forest[k + 1]));
        assert y in Block(forest[k + 1]);
      }
      DistinctConcat(head, Flatten(rest));
      assert Flatten(forest) == head + Flatten(rest);
    }
  }

  /** The `k`-th top-level block of a tree holds no id twice. */
  lemma BlockDistinct(ops: seq<Operation>, discussionId: string, parentId: Option<string>, k: nat)
    requires WellFormed(ops)
    requires k < |BuildOperationTree(ops, discussionId, parentId)|
    ensures DistinctOperationIds(Block(BuildOperationTree(ops, discussionId, parentId)[k]))
    decreases Rank(ops, parentId), 0
  {
    var forest := BuildOperationTree(ops, discussionId, parentId);
    var direct := DirectOperations(ops, discussionId, parentId);
    TreeNodeAt(ops, discussionId, parentId, k);
    ChildRankSmaller(ops, discussionId, parentId, direct[k]);
    TreeDistinct(ops, discussionId, Some(direct[k].id));
    forall x, y | x in [forest[k].op] && y in Flatten(forest[k].children) ensures x.id != y.id {
      var i, j := BlockIndex(ops, discussionId, parentId, k, y);
      TreeMemberAt(ops, discussionId, Some(direct[k].id), y);
      var i2 :| 0 <= i2 < |ops| && ops[i2] == y && y.discussionId == discussionId && Descends(ops, i2, Some(direct[k].id));
      DescendsLater(ops, i2, j);
    }
    DistinctConcat([forest[k].op], Flatten(forest[k].children));
  }

  /** Different top-level blocks of a tree share no id. */
  lemma BlocksApart(ops: seq<Operation>, discussionId: string, parentId: Option<string>, k1: nat, k2: nat)
    requires WellFormed(ops)
    requires k1 < k2 < |BuildOperationTree(ops, discussionId, parentId)|
    ensures Apart(Block(BuildOperationTree(ops, discussionId, parentId)[k1]),
                  Block(BuildOperationTree(ops, discussionId, parentId)[k2]))
  {
    var forest := BuildOperationTree(ops, discussionId, parentId);
    var direct := DirectOperations(ops, discussionId, parentId);
    FilterDistinct(ops, Replies(discussionId, parentId));
    forall o1, o2 | o1 in Block(forest[k1]) && o2 in Block(forest[k2]) ensures o1.id != o2.id {
      var i1, j1 := BlockIndex(ops, discussionId, parentId, k1, o1);
      var i2, j2 := BlockIndex(ops, discussionId, parentId, k2, o2);
      if o1.id == o2.id {
        assert i1 == i2;
        TopChildUnique(ops, i1, j1, j2, parentId);
        assert false;
      }
    }
  }

  /** No operation appears twice in the tree under `parentId`. */
  lemma {:induction false} TreeDistinct(ops: seq<Operation>, discussionId: string, parentId: Option<string>)
    requires WellFormed(ops)
    ensures DistinctOperationIds(Flatten(BuildOperationTree(ops, discussionId, parentId)))
    decreases Rank(ops, parentId), 1
  {
    var forest := BuildOperationTree(ops, discussionId, parentId);
    forall k | 0 <= k < |forest| ensures DistinctOperationIds(Block(forest[k])) {
      BlockDistinct(ops, discussionId, parentId, k);
    }
    forall k1, k2 | 0 <= k1 < k2 < |forest| ensures Apart(Block(forest[k1]), Block(forest[k2])) {
      BlocksApart(ops, discussionId, parentId, k1, k2);
    }
    ForestDistinct(forest);
  }

  /** Flattening a discussion's tree gives back every operation of that
      discussion exactly once: the same multiset as `getOperationsByDiscussionId`. */
  lemma FlattenedTreeIsDiscussion(ops: seq<Operation>, discussionId: string)
    requires WellFormed(ops)
    ensures forall o :: o in Flatten(BuildOperationTree(ops, discussionId, None)) <==>
                        o in ops && o.discussionId == discussionId
    ensures DistinctOperationIds(Flatten(BuildOperationTree(ops, discussionId, None)))
    ensures multiset(Flatten(BuildOperationTree(ops, discussionId, None))) ==
            multiset(GetOperationsByDiscussionId(ops, discussionId))
  {
    var flat := Flatten(BuildOperationTree(ops, discussionId, None));
    var own := GetOperationsByDiscussionId(ops, discussionId);
    TreeDistinct(ops, discussionId, None);
    forall o ensures o in flat <==> o in ops && o.discussionId == discussionId {
      TreeMemberAt(ops, discussionId, None, o);
      if o in ops {
        var i :| 0 <= i < |ops| && ops[i] == o;
        DescendsFromRoot(ops, i);
      }
    }
    FilterDistinct(ops, (o: Operation) => o.discussionId == discussionId);
    forall o ensures o in own <==> o in ops && o.discussionId == discussionId {
      FilterMembers(ops, (o: Operation) => o.discussionId == discussionId, o);
    }
    DistinctSameMembers(flat, own);
  }

  /** A top-level operation of a discussion's tree applies its operation to
      the discussion's starting number. */
  lemma RootResult(discussions: seq<Discussion>, ops: seq<Operation>, discussionId: string, n: OperationNode)
    requires WellFormed(ops) && ResultsConsistent(discussions, ops)
    requires n in BuildOperationTree(ops, discussionId, None)
    ensures FindDiscussionById(discussions, discussionId).Some?
    ensures n.op.operationType == Divide ==> n.op.rightNumber != 0.0
    ensures n.op.result == Apply(n.op.operationType,
                                 FindDiscussionById(discussions, discussionId).value.startingNumber,
                                 n.op.rightNumber)
  {
    var forest := BuildOperationTree(ops, discussionId, None);
    var k :| 0 <= k < |forest| && forest[k] == n;
    TreeNodeAt(ops, discussionId, None, k);
    var i :| 0 <= i < |ops| && ops[i] == n.op;
    assert ResultConsistent(discussions, ops, ops[i]);
  }

  /** A child applies its operation to its parent node's result. */
  lemma EdgeResult(discussions: seq<Discussion>, ops: seq<Operation>, discussionId: string,
                   n: OperationNode, c: OperationNode)
    requires WellFormed(ops) && ResultsConsistent(discussions, ops)
    requires n.op in ops && n.children == BuildOperationTree(ops, discussionId, Some(n.op.id))
    requires c in n.children
    ensures c.op.operationType == Divide ==> c.op.rightNumber != 0.0
    ensures c.op.result == Apply(c.op.operationType, n.op.result, c.op.rightNumber)
  {
    var kc :| 0 <= kc < |n.children| && n.children[kc] == c;
    TreeNodeAt(ops, discussionId, Some(n.op.id), kc);
    var i :| 0 <= i < |ops| && ops[i] == c.op;
    var p :| 0 <= p < |ops| && ops[p] == n.op;
    IndexOfStored(ops, p);
    assert ResultConsistent(discussions, ops, ops[i]);
  }

  /** In a consistent store, every edge of a discussion's tree carries the
      arithmetic: a top-level result is the operation applied to the starting
      number, a child's result is its operation applied to its parent's result. */
  lemma ResultsPropagate(discussions: seq<Discussion>, ops: seq<Operation>, discussionId: string)
    requires WellFormed(ops) && ResultsConsistent(discussions, ops)
    ensures forall n :: n in BuildOperationTree(ops, discussionId, None) ==>
              && FindDiscussionById(discussions, discussionId).Some?
              && (n.op.operationType == Divide ==> n.op.rightNumber != 0.0)
              && n.op.result == Apply(n.op.operationType,
                                      FindDiscussionById(discussions, discussionId).value.startingNumber,
                                      n.op.rightNumber)
    ensures forall n, c :: n in AllNodes(BuildOperationTree(ops, discussionId, None)) && c in n.children ==>
              && (c.op.operationType == Divide ==> c.op.rightNumber != 0.0)
              && c.op.result == Apply(c.op.operationType, n.op.result, c.op.rightNumber)
  {
    var forest := BuildOperationTree(ops, discussionId, None);
    forall n | n in forest
      ensures && FindDiscussionById(discussions, discussionId).Some?
              && (n.op.operationType == Divide ==> n.op.rightNumber != 0.0)
              && n.op.result == Apply(n.op.operationType,
                                      FindDiscussionById(discussions, discussionId).value.startingNumber,
                                      n.op.rightNumber)
    {
      RootResult(discussions, ops, discussionId, n);
    }
    TreeShape(ops, discussionId, None);
    forall n, c | n in AllNodes(forest) && c in n.children
      ensures && (c.op.operationType == Divide ==> c.op.rightNumber != 0.0)
              && c.op.result == Apply(c.op.operationType, n.op.result, c.op.rightNumber)
    {
      EdgeResult(discussions, ops, discussionId, n, c);
    }
  }
}
