/**
 * The editor engine's `BehaviorTree`: each tick first scans the composites
 * that declare an abort type and probes their condition children, aborting
 * and resetting the tree when a probe calls for it, then evaluates the root.
 */
module EditorScheduler {
  import opened Wrappers
  import ND = EditorNodeData
  import BB = EditorBlackboard
  import opened EditorRuntime

  /**
   * A runtime tree: its root instance (`None` when `RootNode` is null), the
   * paths of its node instances in the order the instance dictionary
   * enumerates them, its blackboard, and the run state of its nodes.
   */
  datatype BehaviorTree = BehaviorTree(
    root: Option<Tree>,
    scanOrder: seq<Path>,
    blackboard: Option<BB.BlackboardData>,
    rs: RunState)

  /** The node instance at `p` below `t`, if there is one. */
  function At(t: Tree, p: Path): (r: Option<Tree>)
    ensures |p| == 0 ==> r == Some(t)
    decreases |p|
  {
    if |p| == 0 then Some(t)
    else if p[0] < |t.children| then At(t.children[p[0]], p[1..])
    else None
  }

  // ---- Where the current running node is ----

  /**
   * The parent walk of `IsExecutingInSubtree`, from `node` up to the root:
   * it meets `q` exactly when `q` is `node` or one of its ancestors.
   */
  function InSubtreeWalk(node: Path, q: Path): (r: bool)
    ensures r <==> Under(q, node)
    decreases |node|
  {
    if node == q then true
    else if |node| == 0 then false
    else
      var up := node[..|node| - 1];
      assert Under(q, node) <==> Under(q, up) && |node| > |q| by {
        if Under(q, node) && |node| > |q| {
          assert up[..|q|] == node[..|q|];
        }
        if Under(q, up) && |node| > |q| {
          assert node[..|q|] == up[..|q|];
        }
      }
      InSubtreeWalk(up, q)
  }

  /** `IsExecutingInSubtree(q)`: there is a current running node and it lies in the subtree at `q`. */
  function IsExecutingInSubtree(current: Option<Path>, q: Path): (r: bool)
    ensures r <==> current.Some? && Under(q, current.value)
  {
    current.Some? && InSubtreeWalk(current.value, q)
  }

  /**
   * The parent walk of `IsExecutingLowerPriorityBranch`: climb from `node`
   * until the parent of the composite is reached (never true) or a node
   * whose parent it is, whose position then decides against `ci`, the
   * composite's own position.
   */
  function LowerWalk(node: Path, parent: Path, ci: nat): (r: bool)
    ensures r <==> Under(parent, node) && |node| > |parent| && node[|parent|] > ci
    decreases |node|
  {
    if node == parent then false
    else if |node| == 0 then false
    else
      var up := node[..|node| - 1];
      if up == parent then node[|node| - 1] > ci
      else
        assert (Under(parent, node) && |node| > |parent|) <==> (Under(parent, up) && |up| > |parent|) by {
          if Under(parent, node) && |node| > |parent| {
            assert up[..|parent|] == node[..|parent|];
          }
          if Under(parent, up) && |up| > |parent| {
            assert node[..|parent|] == up[..|parent|];
          }
        }
        assert |node| > |parent| + 1 ==> node[|parent|] == up[|parent|];
        LowerWalk(up, parent, ci)
  }

  /**
   * `IsExecutingLowerPriorityBranch(q)`: the current running node lies
   * under a later sibling of `q`. The root has no parent and never qualifies.
   */
  function IsExecutingLowerPriorityBranch(current: Option<Path>, q: Path): (r: bool)
    ensures r <==>
      && current.Some? && |q| > 0
      && Under(q[..|q| - 1], current.value)
      && |current.value| >= |q|
      && current.value[|q| - 1] > q[|q| - 1]
  {
    if current.None? || |q| == 0 then false
    else LowerWalk(current.value, q[..|q| - 1], q[|q| - 1])
  }

  /** The two walks never both hold: a node under `q` is not under a later sibling of `q`. */
  lemma SubtreeAndLowerPriorityExclusive(current: Option<Path>, q: Path)
    ensures !(IsExecutingInSubtree(current, q) && IsExecutingLowerPriorityBranch(current, q))
  {
    if IsExecutingInSubtree(current, q) && |q| > 0 {
      assert current.value[|q| - 1] == current.value[..|q|][|q| - 1];
    }
  }

  // ---- One composite's abort check ----

  /**
   * Whether one probe calls for an abort, given the condition's state
   * before the probe (`prev`) and its result. `Self`: success turned to
   * failure while running inside the composite. `LowerPriority`: success
   * while running in a later sibling branch. `Both`: the first test when
   * success turned to failure, else the second.
   */
  function ShouldAbortFor(abortType: ND.AbortType, prev: ND.NodeState, result: ND.NodeState,
                          current: Option<Path>, q: Path): (r: bool)
    ensures abortType == ND.AbortNone ==> !r
    ensures abortType == ND.AbortSelf ==>
      (r <==> prev == ND.Success && result == ND.Failure && IsExecutingInSubtree(current, q))
    ensures abortType == ND.AbortLowerPriority ==>
      (r <==> result == ND.Success && IsExecutingLowerPriorityBranch(current, q))
    ensures abortType == ND.AbortBoth ==>
      (r <==> ((prev == ND.Success && result == ND.Failure && IsExecutingInSubtree(current, q))
               || (result == ND.Success && IsExecutingLowerPriorityBranch(current, q))))
  {
    match abortType
    case AbortSelf =>
      if prev == ND.Success && result == ND.Failure then IsExecutingInSubtree(current, q) else false
    case AbortLowerPriority =>
      if result == ND.Success then IsExecutingLowerPriorityBranch(current, q) else false
    case AbortBoth =>
      if prev == ND.Success && result == ND.Failure then IsExecutingInSubtree(current, q)
      else if result == ND.Success then IsExecutingLowerPriorityBranch(current, q)
      else false
    case AbortNone => false
  }

  /** Positions, in order, of the children of `t` from `j` on whose `NodeData` says `Condition`. */
  function ConditionChildren(t: Tree, j: nat): (r: seq<nat>)
    requires j <= |t.children|
    ensures forall k :: k in r <==> (j <= k < |t.children| && t.children[k].info.hasData
                                     && t.children[k].info.nodeType == ND.Condition)
    ensures forall a :: 0 <= a < |r| ==> j <= r[a] < |t.children|
    ensures forall a, b :: 0 <= a < b < |r| ==> r[a] < r[b]
    decreases |t.children| - j
  {
    if j == |t.children| then []
    else
      var c := t.children[j];
      var rest := ConditionChildren(t, j + 1);
      if c.info.hasData && c.info.nodeType == ND.Condition then [j] + rest else rest
  }

  /** `PerformAbort`: abort the current running node (if any), then reset the whole tree from the root. */
  function PerformAbort(root: Tree, rs: RunState): (r: RunState)
    ensures Quiet(root, [], r)
    ensures r.current == rs.current && r.notifications == rs.notifications
  {
    var rs1 :=
      if rs.current.None? then rs
      else match At(root, rs.current.value)
        case None => rs
        case Some(node) => Abort(node, rs.current.value, rs);
    ResetQuiets(root, [], rs1);
    Reset(root, [], rs1)
  }

  /** The run state after probing, and the position of the condition that triggered an abort, if one did. */
  datatype Probe = Probe(rs: RunState, aborted: Option<nat>)

  /**
   * The probe loop of `CheckCompositeAbort` over the condition children
   * `conds` of the composite `comp` at `q`: each probe is a full
   * `Evaluate`, whose state change is kept; the first probe calling for an
   * abort performs it and ends the loop.
   */
  function ProbeConditions(root: Tree, q: Path, comp: Tree, conds: seq<nat>, c: Ctx, rs: RunState): (r: Option<Probe>)
    requires forall k :: 0 <= k < |conds| ==> conds[k] < |comp.children|
    ensures r.Some? && r.value.aborted.Some? ==> r.value.aborted.value in conds && Quiet(root, [], r.value.rs)
    ensures conds == [] ==> r == Some(Probe(rs, None))
    decreases |conds|
  {
    if conds == [] then Some(Probe(rs, None))
    else
      var j := conds[0];
      var child := comp.children[j];
      var prev := StateOf(child, q + [j], rs);
      match Evaluate(child, q + [j], c, rs)
      case None => None
      case Some(o) =>
        if ShouldAbortFor(comp.info.abortType, prev, o.state, o.rs.current, q) then
          Some(Probe(PerformAbort(root, o.rs), Some(j)))
        else
          ProbeConditions(root, q, comp, conds[1..], c, o.rs)
  }

  /** A probe that does not abort leaves the condition in the state it evaluated to: the probe commits. */
  lemma ProbeCommits(root: Tree, q: Path, comp: Tree, j: nat, c: Ctx, rs: RunState)
    requires j < |comp.children|
    requires Evaluate(comp.children[j], q + [j], c, rs).Some?
    ensures
      var o := Evaluate(comp.children[j], q + [j], c, rs).value;
      StateOf(comp.children[j], q + [j], o.rs) == o.state
  {
  }

  /** `CheckCompositeAbort` for the composite `comp` at `q`. */
  function CheckCompositeAbort(root: Tree, q: Path, comp: Tree, c: Ctx, rs: RunState): (r: Option<Probe>)
    ensures ConditionChildren(comp, 0) == [] ==> r == Some(Probe(rs, None))
    ensures r.Some? && r.value.aborted.Some? ==>
      var j := r.value.aborted.value;
      && j < |comp.children|
      && comp.children[j].info.nodeType == ND.Condition
      && Quiet(root, [], r.value.rs)
  {
    ProbeConditions(root, q, comp, ConditionChildren(comp, 0), c, rs)
  }

  /** Whether the scan checks the node: a composite whose `NodeData` declares an abort type. */
  predicate Watches(node: Tree) {
    node.info.hasData && node.info.nodeType == ND.Composite && node.info.abortType != ND.AbortNone
  }

  /**
   * `CheckAbortConditions`: every node instance, in dictionary order; only
   * watching composites are checked. An abort ends the check of that
   * composite only -- the scan goes on with the remaining instances.
   */
  function Scan(root: Tree, order: seq<Path>, c: Ctx, rs: RunState): (r: Option<RunState>)
    ensures order == [] ==> r == Some(rs)
    decreases |order|
  {
    if order == [] then Some(rs)
    else
      var p := order[0];
      match At(root, p)
      case None => Scan(root, order[1..], c, rs)
      case Some(node) =>
        if !Watches(node) then Scan(root, order[1..], c, rs)
        else match CheckCompositeAbort(root, p, node, c, rs)
          case None => None
          case Some(pr) => Scan(root, order[1..], c, pr.rs)
  }

  /** Scanning a concatenation is scanning the first part, then the second from where it left off. */
  lemma {:induction false} ScanAppend(root: Tree, o1: seq<Path>, o2: seq<Path>, c: Ctx, rs: RunState)
    ensures Scan(root, o1 + o2, c, rs) ==
      match Scan(root, o1, c, rs)
      case None => None
      case Some(rs1) => Scan(root, o2, c, rs1)
    decreases |o1|
  {
    if o1 == [] {
      assert o1 + o2 == o2;
    } else {
      assert (o1 + o2)[0] == o1[0];
      assert (o1 + o2)[1..] == o1[1..] + o2;
      var p := o1[0];
      match At(root, p)
      case None => ScanAppend(root, o1[1..], o2, c, rs);
      case Some(node) =>
        if !Watches(node) {
          ScanAppend(root, o1[1..], o2, c, rs);
        } else {
          match CheckCompositeAbort(root, p, node, c, rs)
          case None =>
          case Some(pr) => ScanAppend(root, o1[1..], o2, c, pr.rs);
        }
    }
  }

  /** A tree without a watching composite on the scan order is not touched by the scan. */
  lemma {:induction false} ScanWithoutWatchersIsIdle(root: Tree, order: seq<Path>, c: Ctx, rs: RunState)
    requires forall k :: 0 <= k < |order| && At(root, order[k]).Some? ==> !Watches(At(root, order[k]).value)
    ensures Scan(root, order, c, rs) == Some(rs)
    decreases |order|
  {
    if order != [] {
      assert forall k :: 0 <= k < |order[1..]| ==> order[1..][k] == order[k + 1];
      ScanWithoutWatchersIsIdle(root, order[1..], c, rs);
    }
  }

  /** What one tick returned, and the tree afterwards. */
  datatype TickResult = TickResult(state: ND.NodeState, tree: BehaviorTree)

  /**
   * `Tick`: `Failure` without a root; otherwise the abort scan, then the
   * root's `Evaluate`. `leaf` supplies the leaves' outcomes for this tick.
   */
  function Tick(bt: BehaviorTree, leaf: string -> ND.NodeState, fuel: nat): (r: Option<TickResult>)
    ensures bt.root.None? ==> r == Some(TickResult(ND.Failure, bt))
    ensures r.Some? && bt.root.Some? ==>
      && r.value.state == StateOf(bt.root.value, [], r.value.tree.rs)
      && Get(r.value.tree.rs, []).started == (r.value.state == ND.Running)
      && r.value.tree == bt.(rs := r.value.tree.rs)
  {
    match bt.root
    case None => Some(TickResult(ND.Failure, bt))
    case Some(root) =>
      var c := Ctx(bt.blackboard, leaf, fuel);
      match Scan(root, bt.scanOrder, c, bt.rs)
      case None => None
      case Some(rs1) =>
        match Evaluate(root, [], c, rs1)
        case None => None
        case Some(o) => Some(TickResult(o.state, bt.(rs := o.rs)))
  }

  /** With no watching composite on the scan order, a tick is the root's `Evaluate` on the stored run state. */
  lemma TickWithoutWatchersEvaluatesRoot(bt: BehaviorTree, leaf: string -> ND.NodeState, fuel: nat)
    requires bt.root.Some?
    requires forall k :: 0 <= k < |bt.scanOrder| && At(bt.root.value, bt.scanOrder[k]).Some? ==>
      !Watches(At(bt.root.value, bt.scanOrder[k]).value)
    ensures Tick(bt, leaf, fuel) ==
      match Evaluate(bt.root.value, [], Ctx(bt.blackboard, leaf, fuel), bt.rs)
      case None => None
      case Some(o) => Some(TickResult(o.state, bt.(rs := o.rs)))
  {
    ScanWithoutWatchersIsIdle(bt.root.value, bt.scanOrder, Ctx(bt.blackboard, leaf, fuel), bt.rs);
  }

  /**
   * The abort scan runs before the root is evaluated: when the composite at
   * `p` aborts and no watching composite follows it on the scan order, the
   * root is evaluated from a run state in which the whole tree is quiet.
   */
  lemma TickAfterAbortEvaluatesQuietTree(bt: BehaviorTree, leaf: string -> ND.NodeState, fuel: nat,
                                         o1: seq<Path>, p: Path, o2: seq<Path>) returns (rs2: RunState)
    requires bt.root.Some? && bt.scanOrder == o1 + [p] + o2
    requires Scan(bt.root.value, o1, Ctx(bt.blackboard, leaf, fuel), bt.rs).Some?
    requires At(bt.root.value, p).Some? && Watches(At(bt.root.value, p).value)
    requires var pr := CheckCompositeAbort(bt.root.value, p, At(bt.root.value, p).value,
                                           Ctx(bt.blackboard, leaf, fuel),
                                           Scan(bt.root.value, o1, Ctx(bt.blackboard, leaf, fuel), bt.rs).value);
      pr.Some? && pr.value.aborted.Some?
    requires forall k :: 0 <= k < |o2| && At(bt.root.value, o2[k]).Some? ==> !Watches(At(bt.root.value, o2[k]).value)
    ensures Quiet(bt.root.value, [], rs2)
    ensures Tick(bt, leaf, fuel) ==
      match Evaluate(bt.root.value, [], Ctx(bt.blackboard, leaf, fuel), rs2)
      case None => None
      case Some(o) => Some(TickResult(o.state, bt.(rs := o.rs)))
  {
    var root := bt.root.value;
    var c := Ctx(bt.blackboard, leaf, fuel);
    var rs1 := Scan(root, o1, c, bt.rs).value;
    rs2 := CheckCompositeAbort(root, p, At(root, p).value, c, rs1).value.rs;
    ScanAppend(root, o1 + [p], o2, c, bt.rs);
    ScanAppend(root, o1, [p], c, bt.rs);
    assert [p][1..] == [];
    ScanWithoutWatchersIsIdle(root, o2, c, rs2);
  }

  /**
   * `Cleanup`: the instances, the root and the current running node are
   * dropped; the states stored in the node data stay as they were.
   */
  function Cleanup(bt: BehaviorTree): (r: BehaviorTree)
    ensures r.root.None? && r.scanOrder == [] && r.rs.current.None?
    ensures r.rs.nodes == bt.rs.nodes && r.blackboard == bt.blackboard
  {
    BehaviorTree(None, [], bt.blackboard, bt.rs.(current := None))
  }

  /** After `Cleanup` every tick fails at once and changes nothing. */
  lemma CleanupThenTickFails(bt: BehaviorTree, leaf: string -> ND.NodeState, fuel: nat)
    ensures Tick(Cleanup(bt), leaf, fuel) == Some(TickResult(ND.Failure, Cleanup(bt)))
  {
  }
}
