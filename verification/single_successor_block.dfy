/**
  Single-successor basic blocks of the dataflow control-flow graph.

  The heap of block objects is a map from block ids to block states; each
  operation is a function from the graph before to the graph after, and
  its contract states what changes and what does not.  Every block in the
  map records its predecessors, as every block of the graph does.
 */
module SingleSuccessorBlocks {
  import opened Wrappers

  type BlockId = nat

  /**
    How stores flow from a block to its successor.  `EachToEach` (each store
    at the end of the block flows to the corresponding store of the
    successor) is the default; the other rules of the store abstraction are
    not part of this model and are kept opaque.
   */
  datatype FlowRule = EachToEach | OtherRule(name: string)

  /** The state of one block: its nullable successor, its predecessors and its store flow rule. */
  datatype Block = Block(successor: Option<BlockId>, predecessors: set<BlockId>, storeFlow: FlowRule)

  type Graph = map<BlockId, Block>

  /** A freshly created block: no successor, no predecessors, the default flow rule. */
  function NewBlock(g: Graph, id: BlockId): (g': Graph)
    requires id !in g
    ensures g'.Keys == g.Keys + {id}
    ensures g'[id].successor == None
    ensures g'[id].predecessors == {}
    ensures g'[id].storeFlow == EachToEach
    ensures forall x :: x in g ==> g'[x] == g[x]
  {
    g[id := Block(None, {}, EachToEach)]
  }

  /** The non-exceptional successors of a block: at most one, and none exactly when the successor is null. */
  function Successors(blk: Block): (r: set<BlockId>)
    ensures |r| <= 1
    ensures r == {} <==> blk.successor.None?
    ensures forall s :: s in r <==> blk.successor == Some(s)
  {
    match blk.successor
    case None => {}
    case Some(s) => {s}
  }

  /**
    `setSuccessor`: makes `s` the successor of `b` and adds `b` to the
    predecessors of `s`.  A previous successor keeps `b` among its
    predecessors.
   */
  function SetSuccessor(g: Graph, b: BlockId, s: BlockId): (g': Graph)
    requires b in g && s in g
    ensures g'.Keys == g.Keys
    ensures g'[b].successor == Some(s)
    ensures g'[s].predecessors == g[s].predecessors + {b}
    ensures forall x :: x in g && x != b ==> g'[x].successor == g[x].successor
    ensures forall x :: x in g && x != s ==> g'[x].predecessors == g[x].predecessors
    ensures forall x :: x in g ==> g'[x].storeFlow == g[x].storeFlow
    ensures forall x :: x in g && x != b && x != s ==> g'[x] == g[x]
  {
    var g1 := g[b := g[b].(successor := Some(s))];
    g1[s := g1[s].(predecessors := g1[s].predecessors + {b})]
  }

  /** `setStoreFlow`: changes the flow rule of `b` and nothing else. */
  function SetStoreFlow(g: Graph, b: BlockId, rule: FlowRule): (g': Graph)
    requires b in g
    ensures g'.Keys == g.Keys
    ensures g'[b].storeFlow == rule
    ensures forall x :: x in g ==>
              g'[x].successor == g[x].successor && g'[x].predecessors == g[x].predecessors
    ensures forall x :: x in g && x != b ==> g'[x] == g[x]
  {
    g[b := g[b].(storeFlow := rule)]
  }

  /**
    `getSuccessor`: the block's only successor, `None` when there is none.
    In a linked graph the successor lists the block among its predecessors,
    so setting a successor changes nothing exactly when it is the current one.
   */
  function GetSuccessor(g: Graph, b: BlockId): (r: Option<BlockId>)
    requires b in g
    ensures Successors(g[b]) == if r.Some? then {r.value} else {}
    ensures Linked(g) && r.Some? ==> r.value in g && b in g[r.value].predecessors
    ensures Linked(g) ==> forall s :: s in g ==> (SetSuccessor(g, b, s) == g <==> r == Some(s))
  {
    assert Linked(g) && g[b].successor.Some? ==> SetSuccessor(g, b, g[b].successor.value) == g by {
      if Linked(g) && g[b].successor.Some? {
        var s := g[b].successor.value;
        assert g[b := g[b]] == g;
        assert g[s].predecessors + {b} == g[s].predecessors;
        assert g[s := g[s].(predecessors := g[s].predecessors + {b})] == g;
      }
    }
    g[b].successor
  }

  /**
    `getStoreFlow`: the rule for information flowing from this block to its
    successor; setting a rule changes nothing exactly when it is this one.
   */
  function GetStoreFlow(g: Graph, b: BlockId): (r: FlowRule)
    requires b in g
    ensures forall rule :: SetStoreFlow(g, b, rule) == g <==> rule == r
  {
    assert g[b := g[b].(storeFlow := g[b].storeFlow)] == g;
    g[b].storeFlow
  }

  /** Every successor edge leads to a block of the graph that lists the source among its predecessors. */
  predicate Linked(g: Graph) {
    forall b :: b in g && g[b].successor.Some? ==>
      g[b].successor.value in g && b in g[g[b].successor.value].predecessors
  }

  /** One step of graph construction. */
  datatype Op =
    | AddBlock(id: BlockId)
    | SetSucc(block: BlockId, succ: BlockId)
    | SetFlow(block: BlockId, rule: FlowRule)

  /** The blocks an operation touches exist (and a new block is new). */
  predicate Enabled(g: Graph, op: Op) {
    match op
    case AddBlock(id) => id !in g
    case SetSucc(b, s) => b in g && s in g
    case SetFlow(b, _) => b in g
  }

  function Apply(g: Graph, op: Op): Graph
    requires Enabled(g, op)
  {
    match op
    case AddBlock(id) => NewBlock(g, id)
    case SetSucc(b, s) => SetSuccessor(g, b, s)
    case SetFlow(b, rule) => SetStoreFlow(g, b, rule)
  }

  /** Every operation of the history, most recent last, is enabled when it happens. */
  predicate Runs(g: Graph, ops: seq<Op>)
    decreases |ops|, 0
  {
    ops == [] || (Runs(g, ops[..|ops| - 1]) && Enabled(Run(g, ops[..|ops| - 1]), ops[|ops| - 1]))
  }

  /** The graph after the whole history.  Blocks are never removed, and linked graphs stay linked. */
  function Run(g: Graph, ops: seq<Op>): (r: Graph)
    requires Runs(g, ops)
    ensures g.Keys <= r.Keys
    ensures Linked(g) ==> Linked(r)
    decreases |ops|, 1
  {
    if ops == [] then g
    else
      var before := Run(g, ops[..|ops| - 1]);
      var op := ops[|ops| - 1];
      match op
      case AddBlock(id) => NewBlockKeepsLinked(before, id); Apply(before, op)
      case SetSucc(b, s) => SetSuccessorKeepsLinked(before, b, s); Apply(before, op)
      case SetFlow(b, rule) => SetStoreFlowKeepsLinked(before, b, rule); Apply(before, op)
  }

  lemma NewBlockKeepsLinked(g: Graph, id: BlockId)
    requires id !in g
    ensures Linked(g) ==> Linked(NewBlock(g, id))
  {
  }

  /** Setting a successor keeps every edge registered on both ends, including the new one. */
  lemma SetSuccessorKeepsLinked(g: Graph, b: BlockId, s: BlockId)
    requires b in g && s in g
    ensures Linked(g) ==> Linked(SetSuccessor(g, b, s))
  {
    var g' := SetSuccessor(g, b, s);
    if Linked(g) {
      forall x | x in g' && g'[x].successor.Some?
        ensures g'[x].successor.value in g' && x in g'[g'[x].successor.value].predecessors
      {
        if x != b {
          var y := g[x].successor.value;
          assert g'[x].successor == g[x].successor;
          assert x in g[y].predecessors;
          assert g[y].predecessors <= g'[y].predecessors;
        }
      }
    }
  }

  lemma SetStoreFlowKeepsLinked(g: Graph, b: BlockId, rule: FlowRule)
    requires b in g
    ensures Linked(g) ==> Linked(SetStoreFlow(g, b, rule))
  {
  }

  /** Re-targeting `b` leaves it among the predecessors of its old successor. */
  lemma RetargetingKeepsStaleEdge(g: Graph, b: BlockId, s1: BlockId, s2: BlockId)
    requires b in g && s1 in g && s2 in g
    ensures var g' := SetSuccessor(SetSuccessor(g, b, s1), b, s2);
            && GetSuccessor(g', b) == Some(s2)
            && b in g'[s1].predecessors
            && b in g'[s2].predecessors
  {
  }

  /** `op` sets the successor of `b`. */
  predicate SetsSuccessorOf(op: Op, b: BlockId) {
    op.SetSucc? && op.block == b
  }

  /** `op` sets the flow rule of `b`. */
  predicate SetsFlowOf(op: Op, b: BlockId) {
    op.SetFlow? && op.block == b
  }

  /** Position `i` of the history is the last call of `setSuccessor` on `b`. */
  predicate LastSuccessorSetAt(ops: seq<Op>, b: BlockId, i: int) {
    && 0 <= i < |ops|
    && SetsSuccessorOf(ops[i], b)
    && forall j :: i < j < |ops| ==> !SetsSuccessorOf(ops[j], b)
  }

  /** Position `i` of the history is the last call of `setStoreFlow` on `b`. */
  predicate LastFlowSetAt(ops: seq<Op>, b: BlockId, i: int) {
    && 0 <= i < |ops|
    && SetsFlowOf(ops[i], b)
    && forall j :: i < j < |ops| ==> !SetsFlowOf(ops[j], b)
  }

  /** The blocks `setSuccessor(s)` was called on with `s` as argument, anywhere in the history. */
  function SettersOf(ops: seq<Op>, s: BlockId): set<BlockId> {
    set i | 0 <= i < |ops| && ops[i].SetSucc? && ops[i].succ == s :: ops[i].block
  }

  /** Every block an operation of the history names exists after the history. */
  lemma {:induction false} NamedBlocksExist(g: Graph, ops: seq<Op>, i: int)
    requires Runs(g, ops) && 0 <= i < |ops|
    ensures ops[i].SetSucc? ==> ops[i].block in Run(g, ops) && ops[i].succ in Run(g, ops)
    ensures ops[i].SetFlow? ==> ops[i].block in Run(g, ops)
    ensures ops[i].AddBlock? ==> ops[i].id in Run(g, ops)
    decreases |ops|
  {
    var pre := ops[..|ops| - 1];
    if i < |ops| - 1 {
      NamedBlocksExist(g, pre, i);
      assert pre[i] == ops[i];
      assert Run(g, pre).Keys <= Run(g, ops).Keys;
    }
  }

  /** What one operation does to the successor of `b`. */
  lemma SuccessorStep(before: Graph, op: Op, b: BlockId)
    requires Enabled(before, op) && b in Apply(before, op)
    ensures op == AddBlock(b) ==> GetSuccessor(Apply(before, op), b) == None
    ensures SetsSuccessorOf(op, b) ==> GetSuccessor(Apply(before, op), b) == Some(op.succ)
    ensures op != AddBlock(b) && !SetsSuccessorOf(op, b) ==>
              b in before && GetSuccessor(Apply(before, op), b) == GetSuccessor(before, b)
  {
  }

  /** What one operation does to the flow rule of `b`. */
  lemma StoreFlowStep(before: Graph, op: Op, b: BlockId)
    requires Enabled(before, op) && b in Apply(before, op)
    ensures op == AddBlock(b) ==> GetStoreFlow(Apply(before, op), b) == EachToEach
    ensures SetsFlowOf(op, b) ==> GetStoreFlow(Apply(before, op), b) == op.rule
    ensures op != AddBlock(b) && !SetsFlowOf(op, b) ==>
              b in before && GetStoreFlow(Apply(before, op), b) == GetStoreFlow(before, b)
  {
  }

  /** `getSuccessor` answers the argument of the last `setSuccessor` on the block. */
  lemma {:induction false} SuccessorIsLastSet(g: Graph, ops: seq<Op>, b: BlockId, i: int)
    requires Runs(g, ops) && b in Run(g, ops)
    requires LastSuccessorSetAt(ops, b, i)
    ensures GetSuccessor(Run(g, ops), b) == Some(ops[i].succ)
    decreases |ops|
  {
    var pre := ops[..|ops| - 1];
    var op := ops[|ops| - 1];
    var before := Run(g, pre);
    assert Run(g, ops) == Apply(before, op);
    SuccessorStep(before, op, b);
    if i < |ops| - 1 {
      assert LastSuccessorSetAt(pre, b, i) by {
        assert forall j :: i < j < |pre| ==> pre[j] == ops[j];
      }
      assert op != AddBlock(b) by {
        NamedBlocksExist(g, pre, i);
      }
      SuccessorIsLastSet(g, pre, b, i);
    }
  }

  /**
    Before any `setSuccessor` on the block, `getSuccessor` answers what the
    block started with; a block created during the history starts with no
    successor.
   */
  lemma {:induction false} SuccessorUnsetIsInitial(g: Graph, ops: seq<Op>, b: BlockId)
    requires Runs(g, ops) && b in Run(g, ops)
    requires forall i :: 0 <= i < |ops| ==> !SetsSuccessorOf(ops[i], b)
    ensures GetSuccessor(Run(g, ops), b) == if b in g then g[b].successor else None
    decreases |ops|
  {
    if ops != [] {
      var pre := ops[..|ops| - 1];
      var op := ops[|ops| - 1];
      var before := Run(g, pre);
      assert Run(g, ops) == Apply(before, op);
      SuccessorStep(before, op, b);
      if op != AddBlock(b) {
        assert forall i :: 0 <= i < |pre| ==> pre[i] == ops[i];
        SuccessorUnsetIsInitial(g, pre, b);
      }
    }
  }

  /** `getStoreFlow` answers the rule of the last `setStoreFlow` on the block. */
  lemma {:induction false} StoreFlowIsLastSet(g: Graph, ops: seq<Op>, b: BlockId, i: int)
    requires Runs(g, ops) && b in Run(g, ops)
    requires LastFlowSetAt(ops, b, i)
    ensures GetStoreFlow(Run(g, ops), b) == ops[i].rule
    decreases |ops|
  {
    var pre := ops[..|ops| - 1];
    var op := ops[|ops| - 1];
    var before := Run(g, pre);
    assert Run(g, ops) == Apply(before, op);
    StoreFlowStep(before, op, b);
    if i < |ops| - 1 {
      assert LastFlowSetAt(pre, b, i) by {
        assert forall j :: i < j < |pre| ==> pre[j] == ops[j];
      }
      assert op != AddBlock(b) by {
        NamedBlocksExist(g, pre, i);
      }
      StoreFlowIsLastSet(g, pre, b, i);
    }
  }

  /**
    Before any `setStoreFlow` on the block, `getStoreFlow` answers what the
    block started with; a block created during the history starts with
    `EachToEach`.
   */
  lemma {:induction false} StoreFlowUnsetIsInitial(g: Graph, ops: seq<Op>, b: BlockId)
    requires Runs(g, ops) && b in Run(g, ops)
    requires forall i :: 0 <= i < |ops| ==> !SetsFlowOf(ops[i], b)
    ensures GetStoreFlow(Run(g, ops), b) == if b in g then g[b].storeFlow else EachToEach
    decreases |ops|
  {
    if ops != [] {
      var pre := ops[..|ops| - 1];
      var op := ops[|ops| - 1];
      var before := Run(g, pre);
      assert Run(g, ops) == Apply(before, op);
      StoreFlowStep(before, op, b);
      if op != AddBlock(b) {
        assert forall i :: 0 <= i < |pre| ==> pre[i] == ops[i];
        StoreFlowUnsetIsInitial(g, pre, b);
      }
    }
  }

  /** What one operation does to the predecessors of `s`. */
  lemma PredecessorsStep(before: Graph, op: Op, s: BlockId)
    requires Enabled(before, op) && s in Apply(before, op)
    ensures op == AddBlock(s) ==> Apply(before, op)[s].predecessors == {}
    ensures op != AddBlock(s) ==>
              && s in before
              && Apply(before, op)[s].predecessors ==
                 before[s].predecessors + (if op.SetSucc? && op.succ == s then {op.block} else {})
  {
  }

  /** One more operation adds at most its own block to the setters of `s`. */
  lemma SettersStep(ops: seq<Op>, s: BlockId)
    requires ops != []
    ensures var op := ops[|ops| - 1];
            SettersOf(ops, s) == SettersOf(ops[..|ops| - 1], s) + (if op.SetSucc? && op.succ == s then {op.block} else {})
  {
    var pre := ops[..|ops| - 1];
    assert forall i :: 0 <= i < |pre| ==> pre[i] == ops[i];
  }

  /**
    Predecessors only ever grow: after the history, a block's predecessors
    are the ones it started with plus every block whose successor was ever
    set to it, including blocks re-targeted elsewhere since.
   */
  lemma {:induction false} PredecessorsAccumulate(g: Graph, ops: seq<Op>, s: BlockId)
    requires Runs(g, ops) && s in Run(g, ops)
    ensures Run(g, ops)[s].predecessors == (if s in g then g[s].predecessors else {}) + SettersOf(ops, s)
    decreases |ops|
  {
    if ops != [] {
      var pre := ops[..|ops| - 1];
      var op := ops[|ops| - 1];
      var before := Run(g, pre);
      assert Run(g, ops) == Apply(before, op);
      PredecessorsStep(before, op, s);
      SettersStep(ops, s);
      if op == AddBlock(s) {
        assert SettersOf(pre, s) == {} by {
          forall i | 0 <= i < |pre| && pre[i].SetSucc? ensures pre[i].succ != s {
            NamedBlocksExist(g, pre, i);
          }
        }
      } else {
        PredecessorsAccumulate(g, pre, s);
      }
    }
  }
}
