/**
 * The editor engine's node instances at run time.
 *
 * The shape of the instantiated tree never changes while it runs, so it is
 * an immutable `Tree`; every node is named by its `Path`, the child indices
 * leading to it from the root (its parent is the path without the last
 * index, its place among its siblings the last index). Everything a node
 * mutates while running -- its `State` (stored in its `NodeData`),
 * `isStarted`, and the private fields of the node kinds -- lives in a
 * `RunState`, together with the tree's `CurrentRunningNode`.
 */
module EditorRuntime {
  import opened Wrappers
  import ND = EditorNodeData
  import BB = EditorBlackboard
  import EC = EditorConditions
  import Seqs

  datatype ParallelPolicy = RequireAll | RequireOne

  /** The node classes whose behaviour is modelled, with their public fields. */
  datatype Kind =
    | RootKind
    | Sequence
    | Selector
    | Parallel(successPolicy: ParallelPolicy, failurePolicy: ParallelPolicy)
    | Repeater(repeatCount: BB.Int32, infinite: bool)
    | Inverter
    | ConditionalAbort(watchAbortType: ND.AbortType, watchedVariable: string)
    | CheckBlackboard(check: EC.CheckConfig)
    | Leaf

  /**
   * What a node instance knows about itself: its guid, the `nodeType` and
   * `abortType` of its `NodeData`, whether it has a `NodeData` at all, and its class.
   */
  datatype Info = Info(guid: string, nodeType: ND.NodeType, abortType: ND.AbortType, hasData: bool, kind: Kind)

  datatype Tree = Node(info: Info, children: seq<Tree>)

  type Path = seq<nat>

  /**
   * The mutable part of one node: `nodeState`, `isStarted`, and the private
   * fields of Sequence/Selector (`currentChildIndex`), Parallel
   * (`childrenStates`), Repeater (`currentCount`) and ConditionalAbort
   * (`lastWatchedValue`, `conditionMet`).
   */
  datatype NodeRt = NodeRt(
    state: ND.NodeState,
    started: bool,
    childIndex: nat,
    childStates: seq<ND.NodeState>,
    count: int,
    lastWatched: Option<BB.Boxed>,
    conditionMet: bool)

  /** A node right after `Initialize`. */
  const Initial := NodeRt(ND.Invalid, false, 0, [], 0, None, false)

  /** One `OnNodeStateChanged(node, state)` notification. */
  datatype Notification = Notification(node: Path, state: ND.NodeState)

  datatype RunState = RunState(nodes: map<Path, NodeRt>, current: Option<Path>, notifications: seq<Notification>)

  const Start := RunState(map[], None, [])

  function Get(rs: RunState, p: Path): NodeRt {
    if p in rs.nodes then rs.nodes[p] else Initial
  }

  function Put(rs: RunState, p: Path, rt: NodeRt): (r: RunState)
    ensures Get(r, p) == rt
    ensures forall q :: q != p ==> Get(r, q) == Get(rs, q)
    ensures r.current == rs.current && r.notifications == rs.notifications
  {
    rs.(nodes := rs.nodes[p := rt])
  }

  /** The `State` getter: a node without `NodeData` always reads `Invalid`. */
  function StateOf(t: Tree, p: Path, rs: RunState): ND.NodeState {
    if t.info.hasData then Get(rs, p).state else ND.Invalid
  }

  /** The `State` setter: ignored by a node without `NodeData`. */
  function WriteState(t: Tree, p: Path, rs: RunState, s: ND.NodeState): (r: RunState)
    ensures StateOf(t, p, r) == (if t.info.hasData then s else ND.Invalid)
    ensures Get(r, p) == Get(rs, p).(state := Get(r, p).state)
    ensures forall q :: q != p ==> Get(r, q) == Get(rs, q)
    ensures r.current == rs.current && r.notifications == rs.notifications
  {
    if t.info.hasData then Put(rs, p, Get(rs, p).(state := s)) else rs
  }

  /** `p` lies in the subtree rooted at `here`. */
  predicate Under(here: Path, p: Path) {
    |here| <= |p| && p[..|here|] == here
  }

  lemma UnderChild(here: Path, j: nat, p: Path)
    ensures Under(here + [j], p) <==> Under(here, p) && |p| > |here| && p[|here|] == j
  {
    if Under(here + [j], p) {
      assert p[..|here|] == p[..|here| + 1][..|here|];
    }
    if Under(here, p) && |p| > |here| && p[|here|] == j {
      assert p[..|here| + 1] == p[..|here|] + [p[|here|]];
    }
  }

  /** Nothing in the subtree at `p` differs between `a` and `b`. */
  ghost predicate SubtreeSame(a: RunState, b: RunState, p: Path) {
    forall q :: Under(p, q) ==> Get(b, q) == Get(a, q)
  }

  /** Nothing outside the subtree at `here` differs between `a` and `b`. */
  ghost predicate OutsideSame(a: RunState, b: RunState, here: Path) {
    forall q :: !Under(here, q) ==> Get(b, q) == Get(a, q)
  }

  /** The children `lo .. hi-1` of `here` and their subtrees are the same in `a` and `b`. */
  ghost predicate ChildrenSame(a: RunState, b: RunState, here: Path, lo: int, hi: int) {
    forall q :: Under(here, q) && |q| > |here| && lo <= q[|here|] < hi ==> Get(b, q) == Get(a, q)
  }

  /**
   * What running the subtree at `here` may change: nodes inside it, the
   * current running node (only to a node strictly inside it), and further
   * notifications.
   */
  ghost predicate Confined(a: RunState, b: RunState, here: Path) {
    && OutsideSame(a, b, here)
    && (b.current == a.current || (b.current.Some? && Under(here, b.current.value) && b.current.value != here))
    && a.notifications <= b.notifications
  }

  lemma ConfinedRefl(a: RunState, here: Path)
    ensures Confined(a, a, here)
  {
  }

  lemma ConfinedTrans(a: RunState, b: RunState, c: RunState, here: Path)
    requires Confined(a, b, here) && Confined(b, c, here)
    ensures Confined(a, c, here)
  {
  }

  /** Running a child is confined to the parent's subtree, and leaves the other children alone. */
  lemma ConfinedChild(a: RunState, b: RunState, here: Path, j: nat)
    requires Confined(a, b, here + [j])
    ensures Confined(a, b, here)
    ensures Get(b, here) == Get(a, here)
    ensures forall q :: Under(here, q) && |q| > |here| && q[|here|] != j ==> Get(b, q) == Get(a, q)
  {
    forall q | !Under(here, q) ensures Get(b, q) == Get(a, q) {
      UnderChild(here, j, q);
    }
    UnderChild(here, j, here);
    forall q | Under(here, q) && |q| > |here| && q[|here|] != j ensures Get(b, q) == Get(a, q) {
      UnderChild(here, j, q);
    }
    if b.current != a.current {
      UnderChild(here, j, b.current.value);
    }
  }

  // ---- Reset ----

  /**
   * `Reset` on one node: `State` becomes `Invalid` (when there is a
   * `NodeData`), `isStarted` false, and each kind clears its own fields.
   */
  function ResetRt(info: Info, rt: NodeRt): (r: NodeRt)
    ensures !r.started
    ensures info.hasData ==> r.state == ND.Invalid
  {
    var base := rt.(state := if info.hasData then ND.Invalid else rt.state, started := false);
    match info.kind
    case Sequence => base.(childIndex := 0)
    case Selector => base.(childIndex := 0)
    case Parallel(_, _) => base.(childStates := [])
    case Repeater(_, _) => base.(count := 0)
    case ConditionalAbort(_, _) => base.(lastWatched := None, conditionMet := false)
    case _ => base
  }

  /** Every node of `t` (at `p`) went through `ResetRt` between `a` and `b`. */
  ghost predicate ResetShape(t: Tree, p: Path, a: RunState, b: RunState)
    decreases t
  {
    && Get(b, p) == ResetRt(t.info, Get(a, p))
    && forall j :: 0 <= j < |t.children| ==> ResetShape(t.children[j], p + [j], a, b)
  }

  /** Every node of `t` reads `Invalid` and is not started. */
  ghost predicate Quiet(t: Tree, p: Path, rs: RunState)
    decreases t
  {
    && StateOf(t, p, rs) == ND.Invalid
    && !Get(rs, p).started
    && forall j :: 0 <= j < |t.children| ==> Quiet(t.children[j], p + [j], rs)
  }

  lemma {:induction false} ResetShapeStable(t: Tree, p: Path, a: RunState, b: RunState, a2: RunState, b2: RunState)
    requires ResetShape(t, p, a, b) && SubtreeSame(a, a2, p) && SubtreeSame(b, b2, p)
    ensures ResetShape(t, p, a2, b2)
    decreases t
  {
    assert Under(p, p);
    forall j | 0 <= j < |t.children| ensures ResetShape(t.children[j], p + [j], a2, b2) {
      forall q | Under(p + [j], q) ensures Under(p, q) { UnderChild(p, j, q); }
      ResetShapeStable(t.children[j], p + [j], a, b, a2, b2);
    }
  }

  lemma {:induction false} ResetShapeQuiet(t: Tree, p: Path, a: RunState, b: RunState)
    requires ResetShape(t, p, a, b)
    ensures Quiet(t, p, b)
    decreases t
  {
    forall j | 0 <= j < |t.children| ensures Quiet(t.children[j], p + [j], b) {
      ResetShapeQuiet(t.children[j], p + [j], a, b);
    }
  }

  /** `Reset`: the node, then each child in order. */
  function Reset(t: Tree, here: Path, rs: RunState): (r: RunState)
    ensures ResetShape(t, here, rs, r)
    ensures OutsideSame(rs, r, here)
    ensures r.current == rs.current && r.notifications == rs.notifications
    decreases t, 1
  {
    var rs1 := Put(rs, here, ResetRt(t.info, Get(rs, here)));
    ResetChildren(t, here, 0, rs1, rs)
  }

  function ResetChildren(t: Tree, here: Path, j: nat, rs: RunState, orig: RunState): (r: RunState)
    requires j <= |t.children|
    requires Get(rs, here) == ResetRt(t.info, Get(orig, here))
    requires forall k :: 0 <= k < j ==> ResetShape(t.children[k], here + [k], orig, rs)
    requires ChildrenSame(orig, rs, here, j, |t.children|)
    requires OutsideSame(orig, rs, here)
    requires rs.current == orig.current && rs.notifications == orig.notifications
    ensures ResetShape(t, here, orig, r)
    ensures OutsideSame(orig, r, here)
    ensures r.current == orig.current && r.notifications == orig.notifications
    decreases t, 0, |t.children| - j
  {
    if j == |t.children| then rs
    else
      var rs1 := Reset(t.children[j], here + [j], rs);
      ResetChildStep(t, here, j, rs, rs1, orig);
      ResetChildren(t, here, j + 1, rs1, orig)
  }

  lemma ResetChildStep(t: Tree, here: Path, j: nat, rs: RunState, rs1: RunState, orig: RunState)
    requires j < |t.children|
    requires ResetShape(t.children[j], here + [j], rs, rs1) && OutsideSame(rs, rs1, here + [j])
    requires rs1.current == rs.current && rs1.notifications == rs.notifications
    requires Get(rs, here) == ResetRt(t.info, Get(orig, here))
    requires forall k :: 0 <= k < j ==> ResetShape(t.children[k], here + [k], orig, rs)
    requires ChildrenSame(orig, rs, here, j, |t.children|)
    requires OutsideSame(orig, rs, here)
    ensures Get(rs1, here) == ResetRt(t.info, Get(orig, here))
    ensures forall k :: 0 <= k < j + 1 ==> ResetShape(t.children[k], here + [k], orig, rs1)
    ensures ChildrenSame(orig, rs1, here, j + 1, |t.children|)
    ensures OutsideSame(orig, rs1, here)
  {
    ChildStepFrame(t, here, j, rs, rs1, orig);
    ResetThisChild(t, here, j, rs, rs1, orig);
    ResetEarlierStable(t, here, j, rs, rs1, orig);
    ResetShapesExtend(t, here, j, orig, rs1);
  }

  lemma ResetShapesExtend(t: Tree, here: Path, j: nat, orig: RunState, rs1: RunState)
    requires j < |t.children|
    requires forall k :: 0 <= k < j ==> ResetShape(t.children[k], here + [k], orig, rs1)
    requires ResetShape(t.children[j], here + [j], orig, rs1)
    ensures forall k :: 0 <= k < j + 1 ==> ResetShape(t.children[k], here + [k], orig, rs1)
  {
    forall k | 0 <= k < j + 1 ensures ResetShape(t.children[k], here + [k], orig, rs1) {
      if k == j { }
    }
  }

  /** A step confined to child `j` changes nothing at `here`, outside it, or under the other children. */
  lemma ChildStepFrame(t: Tree, here: Path, j: nat, rs: RunState, rs1: RunState, orig: RunState)
    requires j < |t.children|
    requires OutsideSame(rs, rs1, here + [j])
    requires rs1.current == rs.current && rs1.notifications == rs.notifications
    requires ChildrenSame(orig, rs, here, j, |t.children|)
    requires OutsideSame(orig, rs, here)
    ensures Get(rs1, here) == Get(rs, here)
    ensures ChildrenSame(orig, rs1, here, j + 1, |t.children|)
    ensures OutsideSame(orig, rs1, here)
    ensures forall q :: Under(here, q) && |q| > |here| && q[|here|] != j ==> Get(rs1, q) == Get(rs, q)
  {
    ConfinedChild(rs, rs1, here, j);
    forall q | Under(here, q) && |q| > |here| && j + 1 <= q[|here|] < |t.children|
      ensures Get(rs1, q) == Get(orig, q)
    {
      assert Get(rs1, q) == Get(rs, q);
    }
  }

  /** Child `j`, untouched since the start, has the reset shape relative to the start as well. */
  lemma ResetThisChild(t: Tree, here: Path, j: nat, rs: RunState, rs1: RunState, orig: RunState)
    requires j < |t.children|
    requires ResetShape(t.children[j], here + [j], rs, rs1)
    requires ChildrenSame(orig, rs, here, j, |t.children|)
    ensures ResetShape(t.children[j], here + [j], orig, rs1)
  {
    forall q | Under(here + [j], q) ensures Get(rs, q) == Get(orig, q) {
      UnderChild(here, j, q);
    }
    ResetShapeStable(t.children[j], here + [j], rs, rs1, orig, rs1);
  }

  lemma ResetEarlierStable(t: Tree, here: Path, j: nat, rs: RunState, rs1: RunState, orig: RunState)
    requires j < |t.children|
    requires forall k :: 0 <= k < j ==> ResetShape(t.children[k], here + [k], orig, rs)
    requires forall q :: Under(here, q) && |q| > |here| && q[|here|] != j ==> Get(rs1, q) == Get(rs, q)
    ensures forall k :: 0 <= k < j ==> ResetShape(t.children[k], here + [k], orig, rs1)
  {
    forall k | 0 <= k < j ensures ResetShape(t.children[k], here + [k], orig, rs1) {
      forall q | Under(here + [k], q) ensures Get(rs1, q) == Get(rs, q) {
        UnderChild(here, k, q);
      }
      ResetShapeStable(t.children[k], here + [k], orig, rs, orig, rs1);
    }
  }

  /** After `Reset` every node of the subtree reads `Invalid` and is not started. */
  lemma ResetQuiets(t: Tree, here: Path, rs: RunState)
    ensures Quiet(t, here, Reset(t, here, rs))
  {
    ResetShapeQuiet(t, here, rs, Reset(t, here, rs));
  }

  // ---- Abort ----

  /** `Abort` on one running node: `State` becomes `Invalid` and `isStarted` false; nothing else. */
  function Stopped(rt: NodeRt): NodeRt {
    rt.(state := ND.Invalid, started := false)
  }

  /**
   * Between `a` and `b` the subtree at `p` was aborted: a node that is
   * `Running` is stopped and its children aborted in turn; a node that is
   * not `Running` keeps its whole subtree as it was.
   */
  ghost predicate AbortShape(t: Tree, p: Path, a: RunState, b: RunState)
    decreases t
  {
    if StateOf(t, p, a) == ND.Running then
      && Get(b, p) == Stopped(Get(a, p))
      && forall j :: 0 <= j < |t.children| ==> AbortShape(t.children[j], p + [j], a, b)
    else SubtreeSame(a, b, p)
  }

  lemma {:induction false} AbortShapeStable(t: Tree, p: Path, a: RunState, b: RunState, a2: RunState, b2: RunState)
    requires AbortShape(t, p, a, b) && SubtreeSame(a, a2, p) && SubtreeSame(b, b2, p)
    ensures AbortShape(t, p, a2, b2)
    decreases t
  {
    assert Under(p, p);
    if StateOf(t, p, a) == ND.Running {
      forall j | 0 <= j < |t.children| ensures AbortShape(t.children[j], p + [j], a2, b2) {
        forall q | Under(p + [j], q) ensures Under(p, q) { UnderChild(p, j, q); }
        AbortShapeStable(t.children[j], p + [j], a, b, a2, b2);
      }
    }
  }

  /** `Abort`: only a `Running` node acts; it stops, then aborts each child in order. */
  function Abort(t: Tree, here: Path, rs: RunState): (r: RunState)
    ensures AbortShape(t, here, rs, r)
    ensures OutsideSame(rs, r, here)
    ensures r.current == rs.current && r.notifications == rs.notifications
    ensures StateOf(t, here, rs) != ND.Running ==> r == rs
    decreases t, 1
  {
    if StateOf(t, here, rs) != ND.Running then rs
    else
      var rs1 := Put(rs, here, Stopped(Get(rs, here)));
      AbortChildren(t, here, 0, rs1, rs)
  }

  function AbortChildren(t: Tree, here: Path, j: nat, rs: RunState, orig: RunState): (r: RunState)
    requires j <= |t.children|
    requires StateOf(t, here, orig) == ND.Running
    requires Get(rs, here) == Stopped(Get(orig, here))
    requires forall k :: 0 <= k < j ==> AbortShape(t.children[k], here + [k], orig, rs)
    requires ChildrenSame(orig, rs, here, j, |t.children|)
    requires OutsideSame(orig, rs, here)
    requires rs.current == orig.current && rs.notifications == orig.notifications
    ensures AbortShape(t, here, orig, r)
    ensures OutsideSame(orig, r, here)
    ensures r.current == orig.current && r.notifications == orig.notifications
    decreases t, 0, |t.children| - j
  {
    if j == |t.children| then rs
    else
      var rs1 := Abort(t.children[j], here + [j], rs);
      AbortChildStep(t, here, j, rs, rs1, orig);
      AbortChildren(t, here, j + 1, rs1, orig)
  }

  lemma AbortChildStep(t: Tree, here: Path, j: nat, rs: RunState, rs1: RunState, orig: RunState)
    requires j < |t.children|
    requires AbortShape(t.children[j], here + [j], rs, rs1) && OutsideSame(rs, rs1, here + [j])
    requires rs1.current == rs.current && rs1.notifications == rs.notifications
    requires Get(rs, here) == Stopped(Get(orig, here))
    requires forall k :: 0 <= k < j ==> AbortShape(t.children[k], here + [k], orig, rs)
    requires ChildrenSame(orig, rs, here, j, |t.children|)
    requires OutsideSame(orig, rs, here)
    ensures Get(rs1, here) == Stopped(Get(orig, here))
    ensures forall k :: 0 <= k < j + 1 ==> AbortShape(t.children[k], here + [k], orig, rs1)
    ensures ChildrenSame(orig, rs1, here, j + 1, |t.children|)
    ensures OutsideSame(orig, rs1, here)
  {
    ChildStepFrame(t, here, j, rs, rs1, orig);
    AbortThisChild(t, here, j, rs, rs1, orig);
    AbortEarlierStable(t, here, j, rs, rs1, orig);
    AbortShapesExtend(t, here, j, orig, rs1);
  }

  /** Child `j`, untouched since the start, has the abort shape relative to the start as well. */
  lemma AbortThisChild(t: Tree, here: Path, j: nat, rs: RunState, rs1: RunState, orig: RunState)
    requires j < |t.children|
    requires AbortShape(t.children[j], here + [j], rs, rs1)
    requires ChildrenSame(orig, rs, here, j, |t.children|)
    ensures AbortShape(t.children[j], here + [j], orig, rs1)
  {
    forall q | Under(here + [j], q) ensures Get(rs, q) == Get(orig, q) {
      UnderChild(here, j, q);
    }
    AbortShapeStable(t.children[j], here + [j], rs, rs1, orig, rs1);
  }

  lemma AbortShapesExtend(t: Tree, here: Path, j: nat, orig: RunState, rs1: RunState)
    requires j < |t.children|
    requires forall k :: 0 <= k < j ==> AbortShape(t.children[k], here + [k], orig, rs1)
    requires AbortShape(t.children[j], here + [j], orig, rs1)
    ensures forall k :: 0 <= k < j + 1 ==> AbortShape(t.children[k], here + [k], orig, rs1)
  {
    forall k | 0 <= k < j + 1 ensures AbortShape(t.children[k], here + [k], orig, rs1) {
      if k == j { }
    }
  }

  lemma AbortEarlierStable(t: Tree, here: Path, j: nat, rs: RunState, rs1: RunState, orig: RunState)
    requires j < |t.children|
    requires forall k :: 0 <= k < j ==> AbortShape(t.children[k], here + [k], orig, rs)
    requires forall q :: Under(here, q) && |q| > |here| && q[|here|] != j ==> Get(rs1, q) == Get(rs, q)
    ensures forall k :: 0 <= k < j ==> AbortShape(t.children[k], here + [k], orig, rs1)
  {
    forall k | 0 <= k < j ensures AbortShape(t.children[k], here + [k], orig, rs1) {
      forall q | Under(here + [k], q) ensures Get(rs1, q) == Get(rs, q) {
        UnderChild(here, k, q);
      }
      AbortShapeStable(t.children[k], here + [k], orig, rs, orig, rs1);
    }
  }

  /** `AbortAll`: `Abort` on every child in order, as `ConditionalAbortNode` does. */
  function AbortAll(t: Tree, here: Path, j: nat, rs: RunState): (r: RunState)
    requires j <= |t.children|
    ensures forall k :: j <= k < |t.children| ==> AbortShape(t.children[k], here + [k], rs, r)
    ensures Get(r, here) == Get(rs, here)
    ensures ChildrenSame(rs, r, here, 0, j)
    ensures OutsideSame(rs, r, here)
    ensures r.current == rs.current && r.notifications == rs.notifications
    decreases |t.children| - j
  {
    if j == |t.children| then rs
    else
      var rs1 := Abort(t.children[j], here + [j], rs);
      var r := AbortAll(t, here, j + 1, rs1);
      AbortAllStep(t, here, j, rs, rs1, r);
      r
  }

  lemma AbortAllStep(t: Tree, here: Path, j: nat, rs: RunState, rs1: RunState, r: RunState)
    requires j < |t.children|
    requires AbortShape(t.children[j], here + [j], rs, rs1) && OutsideSame(rs, rs1, here + [j])
    requires rs1.current == rs.current && rs1.notifications == rs.notifications
    requires forall k :: j + 1 <= k < |t.children| ==> AbortShape(t.children[k], here + [k], rs1, r)
    requires Get(r, here) == Get(rs1, here)
    requires ChildrenSame(rs1, r, here, 0, j + 1)
    requires OutsideSame(rs1, r, here)
    ensures forall k :: j <= k < |t.children| ==> AbortShape(t.children[k], here + [k], rs, r)
    ensures Get(r, here) == Get(rs, here)
    ensures ChildrenSame(rs, r, here, 0, j)
    ensures OutsideSame(rs, r, here)
  {
    ConfinedChild(rs, rs1, here, j);
    AbortAllFirst(t, here, j, rs, rs1, r);
    AbortAllLater(t, here, j, rs, rs1, r);
    AbortShapesFrom(t, here, j, rs, r);
  }

  /** Child `j`, left alone by the later aborts, keeps its abort shape. */
  lemma AbortAllFirst(t: Tree, here: Path, j: nat, rs: RunState, rs1: RunState, r: RunState)
    requires j < |t.children|
    requires AbortShape(t.children[j], here + [j], rs, rs1)
    requires ChildrenSame(rs1, r, here, 0, j + 1)
    ensures AbortShape(t.children[j], here + [j], rs, r)
  {
    forall q | Under(here + [j], q) ensures Get(r, q) == Get(rs1, q) {
      UnderChild(here, j, q);
    }
    AbortShapeStable(t.children[j], here + [j], rs, rs1, rs, r);
  }

  /** The later children, untouched by the abort of child `j`, have their shapes relative to the start. */
  lemma AbortAllLater(t: Tree, here: Path, j: nat, rs: RunState, rs1: RunState, r: RunState)
    requires j < |t.children|
    requires forall q :: Under(here, q) && |q| > |here| && q[|here|] != j ==> Get(rs1, q) == Get(rs, q)
    requires forall k :: j + 1 <= k < |t.children| ==> AbortShape(t.children[k], here + [k], rs1, r)
    ensures forall k :: j + 1 <= k < |t.children| ==> AbortShape(t.children[k], here + [k], rs, r)
  {
    forall k | j + 1 <= k < |t.children| ensures AbortShape(t.children[k], here + [k], rs, r) {
      forall q | Under(here + [k], q) ensures Get(rs1, q) == Get(rs, q) {
        UnderChild(here, k, q);
      }
      AbortShapeStable(t.children[k], here + [k], rs1, r, rs, r);
    }
  }

  lemma AbortShapesFrom(t: Tree, here: Path, j: nat, rs: RunState, r: RunState)
    requires j < |t.children|
    requires AbortShape(t.children[j], here + [j], rs, r)
    requires forall k :: j + 1 <= k < |t.children| ==> AbortShape(t.children[k], here + [k], rs, r)
    ensures forall k :: j <= k < |t.children| ==> AbortShape(t.children[k], here + [k], rs, r)
  {
    forall k | j <= k < |t.children| ensures AbortShape(t.children[k], here + [k], rs, r) {
      if k == j { }
    }
  }

  // ---- Evaluate ----

  /**
   * What one tick reads from outside the node objects: the tree's
   * blackboard (`null` is `None`), the outcome each leaf node (action or
   * condition whose logic is not modelled) reports, by guid, and how many
   * completed child runs an infinite repeater may go through in one call.
   */
  datatype Ctx = Ctx(blackboard: Option<BB.BlackboardData>, leaf: string -> ND.NodeState, fuel: nat)

  /** The value `Evaluate` returned, and the run state afterwards. */
  datatype Outcome = Outcome(state: ND.NodeState, rs: RunState)

  /** The fields `OnExit` clears are clear. */
  predicate Exited(k: Kind, rt: NodeRt) {
    match k
    case Sequence => rt.childIndex == 0
    case Selector => rt.childIndex == 0
    case Parallel(_, _) => rt.childStates == []
    case Repeater(_, _) => rt.count == 0
    case _ => true
  }

  /** `OnExit` followed by `isStarted = false`. */
  function ExitRt(k: Kind, rt: NodeRt): (r: NodeRt)
    ensures Exited(k, r) && !r.started && r.state == rt.state
    ensures r.lastWatched == rt.lastWatched && r.conditionMet == rt.conditionMet
  {
    var base := rt.(started := false);
    match k
    case Sequence => base.(childIndex := 0)
    case Selector => base.(childIndex := 0)
    case Parallel(_, _) => base.(childStates := [])
    case Repeater(_, _) => base.(count := 0)
    case _ => base
  }

  /** The value of the watched variable, `null` without a blackboard or without the variable. */
  function ReadWatched(bb: Option<BB.BlackboardData>, name: string): Option<BB.Boxed> {
    match bb
    case None => None
    case Some(b) =>
      match BB.GetVariable(b, name)
      case None => None
      case Some(v) => BB.GetValue(v)
  }

  /** `OnEnter`: each kind starts its private fields afresh. */
  function EnterRt(t: Tree, c: Ctx, rt: NodeRt): (r: NodeRt)
    ensures r.started == rt.started && r.state == rt.state
    ensures t.info.kind.Sequence? || t.info.kind.Selector? ==> r.childIndex == 0
    ensures t.info.kind.Parallel? ==> r.childStates == Seqs.Repeat(ND.Running, |t.children|)
    ensures t.info.kind.Repeater? ==> r.count == 0
    ensures t.info.kind.ConditionalAbort? ==>
      r.conditionMet == EC.EvaluateCondition(c.blackboard, t.info.kind.watchedVariable, r.lastWatched).met
  {
    match t.info.kind
    case Sequence => rt.(childIndex := 0)
    case Selector => rt.(childIndex := 0)
    case Parallel(_, _) => rt.(childStates := Seqs.Repeat(ND.Running, |t.children|))
    case Repeater(_, _) => rt.(count := 0)
    case ConditionalAbort(_, w) =>
      var seen := if w != "" then ReadWatched(c.blackboard, w) else rt.lastWatched;
      var cond := EC.EvaluateCondition(c.blackboard, w, seen);
      rt.(lastWatched := cond.lastWatched, conditionMet := cond.met)
    case _ => rt
  }

  /** `SetCurrentRunningNode(child)`: records the node and notifies its state. */
  function SetCurrent(child: Tree, p: Path, rs: RunState): (r: RunState)
    ensures r.nodes == rs.nodes && r.current == Some(p)
    ensures r.notifications == rs.notifications + [Notification(p, StateOf(child, p, rs))]
  {
    rs.(current := Some(p), notifications := rs.notifications + [Notification(p, StateOf(child, p, rs))])
  }

  /** The first half of `Evaluate`: a node that is not started is marked started and `OnEnter` runs. */
  function Entered(t: Tree, here: Path, c: Ctx, rs: RunState): (r: RunState)
    ensures Get(r, here).started && Get(r, here).state == Get(rs, here).state
    ensures Get(rs, here).started ==> r == rs
    ensures !Get(rs, here).started ==> Get(r, here) == EnterRt(t, c, Get(rs, here).(started := true))
    ensures forall q :: q != here ==> Get(r, q) == Get(rs, q)
    ensures r.current == rs.current && r.notifications == rs.notifications
  {
    var rt := Get(rs, here);
    if rt.started then rs else Put(rs, here, EnterRt(t, c, rt.(started := true)))
  }

  /**
   * `Evaluate`: `OnEnter` the first time (when not started), then
   * `OnEvaluate` into `State`, and on any result other than `Running`
   * `OnExit` and not started any more. Returns what the `State` getter
   * reads. `None` when the source would not return (an exception, or an
   * infinite repeater running out of fuel).
   */
  function Evaluate(t: Tree, here: Path, c: Ctx, rs: RunState): (r: Option<Outcome>)
    ensures r.Some? ==> Confined(rs, r.value.rs, here)
    ensures r.Some? ==> r.value.state == StateOf(t, here, r.value.rs)
    ensures r.Some? ==> Get(r.value.rs, here).started == (r.value.state == ND.Running)
    ensures r.Some? && r.value.state != ND.Running ==> Exited(t.info.kind, Get(r.value.rs, here))
    ensures r.Some? && !t.info.hasData ==> r.value.state == ND.Invalid
    decreases t, 3
  {
    var rs1 := Entered(t, here, c, rs);
    match OnEvaluate(t, here, c, rs1)
    case None => None
    case Some(o) =>
      var rs2 := WriteState(t, here, o.rs, o.state);
      var s := StateOf(t, here, rs2);
      if s == ND.Running then Some(Outcome(s, rs2))
      else Some(Outcome(s, Put(rs2, here, ExitRt(t.info.kind, Get(rs2, here)))))
  }

  /** The node's own logic, per kind. */
  function OnEvaluate(t: Tree, here: Path, c: Ctx, rs: RunState): (r: Option<Outcome>)
    ensures r.Some? ==> Confined(rs, r.value.rs, here)
    ensures r.Some? ==> Get(r.value.rs, here).started == Get(rs, here).started
    ensures r.Some? ==> Get(r.value.rs, here).state == Get(rs, here).state
    decreases t, 2
  {
    var n := |t.children|;
    match t.info.kind
    case RootKind => if n == 0 then Some(Outcome(ND.Failure, rs)) else FirstChild(t, here, c, rs)
    case Sequence => if n == 0 then Some(Outcome(ND.Failure, rs)) else ScanEval(t, here, ND.Failure, c, rs)
    case Selector => if n == 0 then Some(Outcome(ND.Failure, rs)) else ScanEval(t, here, ND.Success, c, rs)
    case Parallel(_, _) => if n == 0 then Some(Outcome(ND.Success, rs)) else ParallelEval(t, here, c, rs)
    case Repeater(_, _) =>
      if n == 0 then Some(Outcome(ND.Failure, rs)) else RepLoop(t, here, c, rs, Get(rs, here).count, c.fuel)
    case Inverter =>
      if n == 0 then Some(Outcome(ND.Failure, rs))
      else (match FirstChild(t, here, c, rs)
        case None => None
        case Some(o) => Some(Outcome(Invert(o.state), o.rs)))
    case ConditionalAbort(_, _) =>
      if n == 0 then Some(Outcome(ND.Failure, rs)) else ConditionalAbortEval(t, here, c, rs)
    case CheckBlackboard(cfg) => Some(Outcome(EC.CheckOutcome(cfg, c.blackboard), rs))
    case Leaf => ConfinedRefl(rs, here); Some(Outcome(c.leaf(t.info.guid), rs))
  }

  /** `Children[0].Evaluate()`, as the root, the inverter and the conditional abort node do. */
  function FirstChild(t: Tree, here: Path, c: Ctx, rs: RunState): (r: Option<Outcome>)
    requires |t.children| > 0
    ensures r.Some? ==> Confined(rs, r.value.rs, here) && Get(r.value.rs, here) == Get(rs, here)
    ensures r.Some? ==> ChildrenSame(rs, r.value.rs, here, 1, |t.children|)
    ensures r.Some? ==> r.value.state == StateOf(t.children[0], here + [0], r.value.rs)
    decreases t, 0, 0
  {
    match Evaluate(t.children[0], here + [0], c, rs)
    case None => None
    case Some(o) => ConfinedChild(rs, o.rs, here, 0); Some(o)
  }

  /** The inverter's mapping: success and failure swap, the others pass through. */
  function Invert(s: ND.NodeState): (r: ND.NodeState)
    ensures s == ND.Success <==> r == ND.Failure
    ensures s == ND.Failure <==> r == ND.Success
    ensures s == ND.Running <==> r == ND.Running
  {
    match s
    case Success => ND.Failure
    case Failure => ND.Success
    case Running => ND.Running
    case Invalid => ND.Invalid
  }

  lemma InvertInvolution(s: ND.NodeState)
    ensures Invert(Invert(s)) == s
  {
  }

  // ---- Sequence and Selector ----

  /**
   * A sequence stops at the first `Failure`, a selector at the first
   * `Success`; the state a scan passes over is anything else but `Running`.
   */
  function Flip(stop: ND.NodeState): ND.NodeState {
    if stop == ND.Failure then ND.Success else ND.Failure
  }

  predicate Passed(s: ND.NodeState, stop: ND.NodeState) {
    s != ND.Running && s != stop
  }

  /**
   * What a scan from child `i` did, `k` being the stored
   * `currentChildIndex` afterwards: children before `i` untouched; each
   * child in `i .. k-1` evaluated to a passing state; either all children
   * passed (`k` is the count, result `Flip(stop)`) or child `k` returned the
   * result (`Running` or `stop`), having become the current running node
   * if `Running`, and the children after it were not touched.
   */
  ghost predicate ScanResult(t: Tree, here: Path, i: nat, stop: ND.NodeState, rs: RunState, o: Outcome) {
    var n := |t.children|;
    var k := Get(o.rs, here).childIndex;
    && Confined(rs, o.rs, here)
    && Get(o.rs, here) == Get(rs, here).(childIndex := k)
    && i <= k <= n
    && ChildrenSame(rs, o.rs, here, 0, i)
    && (forall j :: i <= j < k ==> Passed(StateOf(t.children[j], here + [j], o.rs), stop))
    && (o.state == Flip(stop) <==> k == n)
    && (k < n ==>
          && (o.state == ND.Running || o.state == stop)
          && StateOf(t.children[k], here + [k], o.rs) == o.state
          && ChildrenSame(rs, o.rs, here, k + 1, n))
    && (o.state == ND.Running ==>
          && o.rs.current == Some(here + [k])
          && |o.rs.notifications| > |rs.notifications|
          && o.rs.notifications[|o.rs.notifications| - 1] == Notification(here + [k], ND.Running))
  }

  /** Sequence (`stop` = `Failure`) and Selector (`stop` = `Success`): resume at `currentChildIndex`. */
  function ScanEval(t: Tree, here: Path, stop: ND.NodeState, c: Ctx, rs: RunState): (r: Option<Outcome>)
    requires |t.children| > 0
    requires stop == ND.Success || stop == ND.Failure
    ensures r.Some? && Get(rs, here).childIndex >= |t.children| ==> r.value == Outcome(Flip(stop), rs)
    ensures r.Some? && Get(rs, here).childIndex < |t.children| ==>
      ScanResult(t, here, Get(rs, here).childIndex, stop, rs, r.value)
    ensures r.Some? ==> Confined(rs, r.value.rs, here)
    ensures r.Some? ==> Get(r.value.rs, here).started == Get(rs, here).started
    ensures r.Some? ==> Get(r.value.rs, here).state == Get(rs, here).state
    decreases t, 1
  {
    var i := Get(rs, here).childIndex;
    if i >= |t.children| then ConfinedRefl(rs, here); Some(Outcome(Flip(stop), rs))
    else ScanChildren(t, here, i, stop, c, rs)
  }

  function ScanChildren(t: Tree, here: Path, i: nat, stop: ND.NodeState, c: Ctx, rs: RunState): (r: Option<Outcome>)
    requires i <= |t.children|
    requires stop == ND.Success || stop == ND.Failure
    requires Get(rs, here).childIndex == i
    ensures r.Some? ==> ScanResult(t, here, i, stop, rs, r.value)
    decreases t, 0, |t.children| - i
  {
    if i == |t.children| then
      ConfinedRefl(rs, here);
      Some(Outcome(Flip(stop), rs))
    else match Evaluate(t.children[i], here + [i], c, rs)
      case None => None
      case Some(o) =>
        ConfinedChild(rs, o.rs, here, i);
        if o.state == ND.Running || o.state == stop then
          var rs1 := if o.state == ND.Running then SetCurrent(t.children[i], here + [i], o.rs) else o.rs;
          ScanStop(t, here, i, stop, rs, o, rs1);
          Some(Outcome(o.state, rs1))
        else
          var rs1 := Put(o.rs, here, Get(o.rs, here).(childIndex := i + 1));
          match ScanChildren(t, here, i + 1, stop, c, rs1)
          case None => None
          case Some(o2) =>
            PutHere(t.children[i], here, i, rs, o.rs, Get(o.rs, here).(childIndex := i + 1), rs1);
            ScanPass(t, here, i, stop, rs, o.state, rs1, o2);
            Some(o2)
  }

  lemma ScanStop(t: Tree, here: Path, i: nat, stop: ND.NodeState, rs: RunState, o: Outcome, rs1: RunState)
    requires i < |t.children|
    requires stop == ND.Success || stop == ND.Failure
    requires Get(rs, here).childIndex == i
    requires o.state == ND.Running || o.state == stop
    requires o.state == StateOf(t.children[i], here + [i], o.rs)
    requires Confined(rs, o.rs, here + [i]) && Confined(rs, o.rs, here) && Get(o.rs, here) == Get(rs, here)
    requires forall q :: Under(here, q) && |q| > |here| && q[|here|] != i ==> Get(o.rs, q) == Get(rs, q)
    requires rs1 == if o.state == ND.Running then SetCurrent(t.children[i], here + [i], o.rs) else o.rs
    ensures ScanResult(t, here, i, stop, rs, Outcome(o.state, rs1))
  {
    UnderChild(here, i, here + [i]);
    assert Get(rs1, here) == Get(rs, here);
  }

  /** A child that passed is recorded by moving `currentChildIndex` past it; the scan from the next child does the rest. */
  lemma ScanPass(t: Tree, here: Path, i: nat, stop: ND.NodeState, rs: RunState, st: ND.NodeState, rs1: RunState, o2: Outcome)
    requires i < |t.children|
    requires stop == ND.Success || stop == ND.Failure
    requires Get(rs, here).childIndex == i
    requires Passed(st, stop)
    requires Confined(rs, rs1, here)
    requires Get(rs1, here) == Get(rs, here).(childIndex := i + 1)
    requires StateOf(t.children[i], here + [i], rs1) == st
    requires forall q :: Under(here, q) && |q| > |here| && q[|here|] != i ==> Get(rs1, q) == Get(rs, q)
    requires ScanResult(t, here, i + 1, stop, rs1, o2)
    ensures ScanResult(t, here, i, stop, rs, o2)
  {
    var k := Get(o2.rs, here).childIndex;
    ConfinedTrans(rs, rs1, o2.rs, here);
    assert Under(here, here + [i]) && |here + [i]| > |here| && (here + [i])[|here|] == i;
    assert StateOf(t.children[i], here + [i], o2.rs) == st;
    ChildrenSameAround(rs, rs1, o2.rs, here, i, 0, i);
    if k < |t.children| {
      ChildrenSameAround(rs, rs1, o2.rs, here, i, k + 1, |t.children|);
    }
    assert rs.notifications <= rs1.notifications;
  }

  /** Children of `here` in `lo .. hi-1`, a range without child `i`, unchanged from `a` to `b` and from `b` to `c` when only child `i` changed. */
  lemma ChildrenSameAround(a: RunState, b: RunState, c: RunState, here: Path, i: nat, lo: nat, hi: nat)
    requires hi <= i || i < lo
    requires forall q :: Under(here, q) && |q| > |here| && q[|here|] != i ==> Get(b, q) == Get(a, q)
    requires ChildrenSame(b, c, here, lo, hi)
    ensures ChildrenSame(a, c, here, lo, hi)
  {
  }

  // ---- Parallel ----

  /** A policy is met by `count` of `n` children: all of them, or at least one. */
  predicate PolicyMet(p: ParallelPolicy, n: nat, count: nat) {
    if p == RequireAll then count == n else count > 0
  }

  /**
   * The parallel node's verdict: the success policy is checked first, then
   * the failure policy, then any child still running; with none of these it succeeds.
   */
  function Decide(sp: ParallelPolicy, fp: ParallelPolicy, n: nat, successes: nat, failures: nat, anyRunning: bool): (r: ND.NodeState)
    ensures r == ND.Success <==> PolicyMet(sp, n, successes) || (!PolicyMet(fp, n, failures) && !anyRunning)
    ensures r == ND.Failure <==> !PolicyMet(sp, n, successes) && PolicyMet(fp, n, failures)
    ensures r == ND.Running <==> !PolicyMet(sp, n, successes) && !PolicyMet(fp, n, failures) && anyRunning
    ensures r != ND.Invalid
  {
    if sp == RequireAll && successes == n then ND.Success
    else if sp == RequireOne && successes > 0 then ND.Success
    else if fp == RequireAll && failures == n then ND.Failure
    else if fp == RequireOne && failures > 0 then ND.Failure
    else if anyRunning then ND.Running
    else ND.Success
  }

  /** How many of `s[lo..hi]` equal `x`. */
  function Count(s: seq<ND.NodeState>, x: ND.NodeState, lo: nat, hi: nat): (r: nat)
    requires lo <= hi <= |s|
    ensures r <= hi - lo
    decreases hi - lo
  {
    if lo == hi then 0 else (if s[lo] == x then 1 else 0) + Count(s, x, lo + 1, hi)
  }

  datatype Tally = Tally(successes: nat, failures: nat, anyRunning: bool, rs: RunState)

  /**
   * What the parallel loop from child `i` did to `childrenStates` (`s0`
   * before, `s1` after): a child recorded as finished is skipped and its
   * subtree untouched; a child recorded as `Running` is evaluated and its
   * result recorded. Nothing before `i` or past the children changes.
   */
  ghost predicate ParStates(t: Tree, here: Path, i: nat, rs: RunState, rs1: RunState) {
    var n := |t.children|;
    var s0 := Get(rs, here).childStates;
    var s1 := Get(rs1, here).childStates;
    && i <= n <= |s0|
    && Confined(rs, rs1, here)
    && Get(rs1, here) == Get(rs, here).(childStates := s1)
    && |s1| == |s0|
    && (forall j :: 0 <= j < i ==> s1[j] == s0[j])
    && (forall j :: n <= j < |s0| ==> s1[j] == s0[j])
    && ChildrenSame(rs, rs1, here, 0, i)
    && (forall j :: i <= j < n && s0[j] == ND.Running ==> s1[j] == StateOf(t.children[j], here + [j], rs1))
    && (forall j :: i <= j < n && s0[j] != ND.Running ==> s1[j] == s0[j])
    && (forall q :: Under(here, q) && |q| > |here| && i <= q[|here|] < n && s0[q[|here|]] != ND.Running ==>
          Get(rs1, q) == Get(rs, q))
  }

  /** The counts the loop accumulates are those of the final `childrenStates`. */
  ghost predicate ParResult(t: Tree, here: Path, i: nat, rs: RunState, sc: nat, fc: nat, anyR: bool, a: Tally) {
    var n := |t.children|;
    var s1 := Get(a.rs, here).childStates;
    && ParStates(t, here, i, rs, a.rs)
    && i <= n <= |s1|
    && a.successes == sc + Count(s1, ND.Success, i, n)
    && a.failures == fc + Count(s1, ND.Failure, i, n)
    && a.anyRunning == (anyR || exists j :: i <= j < n && s1[j] == ND.Running)
  }

  function ParLoop(t: Tree, here: Path, i: nat, c: Ctx, rs: RunState, sc: nat, fc: nat, anyR: bool): (r: Option<Tally>)
    requires i <= |t.children|
    requires i == |t.children| ==> |t.children| <= |Get(rs, here).childStates|
    ensures i < |t.children| && |Get(rs, here).childStates| < |t.children| ==> r.None?
    ensures r.Some? ==> ParResult(t, here, i, rs, sc, fc, anyR, r.value)
    decreases t, 0, |t.children| - i
  {
    if i == |t.children| then
      ConfinedRefl(rs, here);
      Some(Tally(sc, fc, anyR, rs))
    else
      var cs := Get(rs, here).childStates;
      if i >= |cs| then None
      else if cs[i] != ND.Running then
        match ParLoop(t, here, i + 1, c, rs, sc + (if cs[i] == ND.Success then 1 else 0),
                      fc + (if cs[i] == ND.Failure then 1 else 0), anyR)
        case None => None
        case Some(a) =>
          ParSkip(t, here, i, rs, sc, fc, anyR, a);
          Some(a)
      else match Evaluate(t.children[i], here + [i], c, rs)
        case None => None
        case Some(o) =>
          ConfinedChild(rs, o.rs, here, i);
          var rs1 := Put(o.rs, here, Get(o.rs, here).(childStates := cs[i := o.state]));
          match ParLoop(t, here, i + 1, c, rs1, sc + (if o.state == ND.Success then 1 else 0),
                        fc + (if o.state == ND.Failure then 1 else 0), anyR || o.state == ND.Running)
          case None => None
          case Some(a) =>
            ParRun(t, here, i, rs, o, rs1, sc, fc, anyR, a);
            Some(a)
  }

  lemma ParSkip(t: Tree, here: Path, i: nat, rs: RunState, sc: nat, fc: nat, anyR: bool, a: Tally)
    requires i < |t.children| && i < |Get(rs, here).childStates|
    requires Get(rs, here).childStates[i] != ND.Running
    requires ParResult(t, here, i + 1, rs,
      sc + (if Get(rs, here).childStates[i] == ND.Success then 1 else 0),
      fc + (if Get(rs, here).childStates[i] == ND.Failure then 1 else 0), anyR, a)
    ensures ParResult(t, here, i, rs, sc, fc, anyR, a)
  {
    ParStatesSkip(t, here, i, rs, a.rs);
    ParCountStep(Get(a.rs, here).childStates, i, |t.children|);
  }

  /** A skipped child keeps its recorded state and its subtree. */
  lemma ParStatesSkip(t: Tree, here: Path, i: nat, rs: RunState, rs1: RunState)
    requires i < |t.children| && i < |Get(rs, here).childStates|
    requires Get(rs, here).childStates[i] != ND.Running
    requires ParStates(t, here, i + 1, rs, rs1)
    ensures ParStates(t, here, i, rs, rs1)
    ensures Get(rs1, here).childStates[i] == Get(rs, here).childStates[i]
  {
    var s0 := Get(rs, here).childStates;
    forall q | Under(here, q) && |q| > |here| && i <= q[|here|] < |t.children| && s0[q[|here|]] != ND.Running
      ensures Get(rs1, q) == Get(rs, q)
    {
    }
  }

  /** One step of the counts and of the running flag over `s[i..n]`. */
  lemma ParCountStep(s: seq<ND.NodeState>, i: nat, n: nat)
    requires i < n <= |s|
    ensures Count(s, ND.Success, i, n) == (if s[i] == ND.Success then 1 else 0) + Count(s, ND.Success, i + 1, n)
    ensures Count(s, ND.Failure, i, n) == (if s[i] == ND.Failure then 1 else 0) + Count(s, ND.Failure, i + 1, n)
    ensures (exists j :: i <= j < n && s[j] == ND.Running) ==
            (s[i] == ND.Running || exists j :: i + 1 <= j < n && s[j] == ND.Running)
  {
  }

  lemma ParRun(t: Tree, here: Path, i: nat, rs: RunState, o: Outcome, rs1: RunState,
               sc: nat, fc: nat, anyR: bool, a: Tally)
    requires i < |t.children| && i < |Get(rs, here).childStates|
    requires Get(rs, here).childStates[i] == ND.Running
    requires o.state == StateOf(t.children[i], here + [i], o.rs)
    requires Confined(rs, o.rs, here) && Get(o.rs, here) == Get(rs, here)
    requires forall q :: Under(here, q) && |q| > |here| && q[|here|] != i ==> Get(o.rs, q) == Get(rs, q)
    requires rs1 == Put(o.rs, here, Get(o.rs, here).(childStates := Get(rs, here).childStates[i := o.state]))
    requires ParResult(t, here, i + 1, rs1,
      sc + (if o.state == ND.Success then 1 else 0),
      fc + (if o.state == ND.Failure then 1 else 0), anyR || o.state == ND.Running, a)
    ensures ParResult(t, here, i, rs, sc, fc, anyR, a)
  {
    PutHere(t.children[i], here, i, rs, o.rs, Get(o.rs, here).(childStates := Get(rs, here).childStates[i := o.state]), rs1);
    ParStatesRun(t, here, i, rs, o.state, rs1, a.rs);
    ParCountStep(Get(a.rs, here).childStates, i, |t.children|);
  }

  /** An evaluated child has its new state `st` recorded; the rest of the record is as the later children left it. */
  lemma ParStatesRun(t: Tree, here: Path, i: nat, rs: RunState, st: ND.NodeState, rs1: RunState, rs2: RunState)
    requires i < |t.children| && i < |Get(rs, here).childStates|
    requires Get(rs, here).childStates[i] == ND.Running
    requires Confined(rs, rs1, here)
    requires Get(rs1, here) == Get(rs, here).(childStates := Get(rs, here).childStates[i := st])
    requires StateOf(t.children[i], here + [i], rs1) == st
    requires forall q :: Under(here, q) && |q| > |here| && q[|here|] != i ==> Get(rs1, q) == Get(rs, q)
    requires ParStates(t, here, i + 1, rs1, rs2)
    ensures ParStates(t, here, i, rs, rs2)
    ensures Get(rs2, here).childStates[i] == st
  {
    ConfinedTrans(rs, rs1, rs2, here);
    assert Under(here, here + [i]) && |here + [i]| > |here| && (here + [i])[|here|] == i;
    assert StateOf(t.children[i], here + [i], rs2) == st;
    ParSubtreesRun(t, here, i, rs, rs1, rs2);
  }

  lemma ParSubtreesRun(t: Tree, here: Path, i: nat, rs: RunState, rs1: RunState, rs2: RunState)
    requires i < |t.children| <= |Get(rs, here).childStates|
    requires Get(rs, here).childStates[i] == ND.Running
    requires |Get(rs1, here).childStates| == |Get(rs, here).childStates|
    requires forall j :: 0 <= j < |Get(rs, here).childStates| && j != i ==> Get(rs1, here).childStates[j] == Get(rs, here).childStates[j]
    requires forall q :: Under(here, q) && |q| > |here| && q[|here|] != i ==> Get(rs1, q) == Get(rs, q)
    requires ChildrenSame(rs1, rs2, here, 0, i + 1)
    requires forall q :: (Under(here, q) && |q| > |here| && i + 1 <= q[|here|] < |t.children| &&
                          Get(rs1, here).childStates[q[|here|]] != ND.Running) ==> Get(rs2, q) == Get(rs1, q)
    ensures ChildrenSame(rs, rs2, here, 0, i)
    ensures forall q :: (Under(here, q) && |q| > |here| && i <= q[|here|] < |t.children| &&
                         Get(rs, here).childStates[q[|here|]] != ND.Running) ==> Get(rs2, q) == Get(rs, q)
  {
  }

  /** Rewriting the record at `here` after child `i` ran keeps the run confined and leaves the children's subtrees as they were. */
  lemma PutHere(ti: Tree, here: Path, i: nat, rs: RunState, ors: RunState, rt: NodeRt, rs1: RunState)
    requires Confined(rs, ors, here)
    requires forall q :: Under(here, q) && |q| > |here| && q[|here|] != i ==> Get(ors, q) == Get(rs, q)
    requires rs1 == Put(ors, here, rt)
    ensures Confined(rs, rs1, here)
    ensures StateOf(ti, here + [i], rs1) == StateOf(ti, here + [i], ors)
    ensures forall q :: Under(here, q) && |q| > |here| && q[|here|] != i ==> Get(rs1, q) == Get(rs, q)
  {
    assert Confined(ors, rs1, here) by { assert Under(here, here); }
    ConfinedTrans(rs, ors, rs1, here);
    assert here + [i] != here;
  }

  /**
   * Parallel: every child still recorded as `Running` is evaluated, then
   * the policies decide on the counts of the recorded states. A
   * `childrenStates` list shorter than the children throws.
   */
  function ParallelEval(t: Tree, here: Path, c: Ctx, rs: RunState): (r: Option<Outcome>)
    requires t.info.kind.Parallel? && |t.children| > 0
    ensures |Get(rs, here).childStates| < |t.children| ==> r.None?
    ensures r.Some? ==>
      var n := |t.children|;
      var s1 := Get(r.value.rs, here).childStates;
      && ParStates(t, here, 0, rs, r.value.rs)
      && r.value.state == Decide(t.info.kind.successPolicy, t.info.kind.failurePolicy, n,
           Count(s1, ND.Success, 0, n), Count(s1, ND.Failure, 0, n),
           exists j :: 0 <= j < n && s1[j] == ND.Running)
    decreases t, 1
  {
    match ParLoop(t, here, 0, c, rs, 0, 0, false)
    case None => None
    case Some(a) =>
      Some(Outcome(Decide(t.info.kind.successPolicy, t.info.kind.failurePolicy, |t.children|,
                          a.successes, a.failures, a.anyRunning), a.rs))
  }

  // ---- Repeater ----

  /**
   * What the repeat loop from count `cnt` did: either the child is running
   * (and is the current running node), or -- for a finite repeater only --
   * the count reached `repeatCount` with the child reset after its last
   * run; a loop that had nothing left to do changes nothing.
   */
  ghost predicate RepResult(t: Tree, here: Path, cnt: int, rs: RunState, o: Outcome)
    requires t.info.kind.Repeater? && |t.children| > 0
  {
    var k := t.info.kind;
    && Confined(rs, o.rs, here)
    && Get(o.rs, here) == Get(rs, here).(count := Get(o.rs, here).count)
    && (o.state == ND.Running || o.state == ND.Success)
    && (k.infinite ==> o.state == ND.Running)
    && (o.state == ND.Running ==>
          && o.rs.current == Some(here + [0])
          && StateOf(t.children[0], here + [0], o.rs) == ND.Running
          && cnt <= Get(o.rs, here).count)
    && (o.state == ND.Success ==> Get(o.rs, here).count == if cnt < k.repeatCount then k.repeatCount else cnt)
    && (o.state == ND.Success && cnt < k.repeatCount ==> Quiet(t.children[0], here + [0], o.rs))
    && (o.state == ND.Success && cnt >= k.repeatCount ==> o.rs == rs)
  }

  /** The repeat loop; each completed run of an infinite repeater's child uses one unit of `fuel`. */
  function RepLoop(t: Tree, here: Path, c: Ctx, rs: RunState, cnt: int, fuel: nat): (r: Option<Outcome>)
    requires t.info.kind.Repeater? && |t.children| > 0
    requires Get(rs, here).count == cnt
    ensures r.Some? ==> RepResult(t, here, cnt, rs, r.value)
    ensures r.Some? ==> Get(r.value.rs, here).started == Get(rs, here).started
    ensures r.Some? ==> Get(r.value.rs, here).state == Get(rs, here).state
    decreases t, 0, RepMeasure(t, cnt, fuel), 1
  {
    var k := t.info.kind;
    if !(k.infinite || cnt < k.repeatCount) then
      ConfinedRefl(rs, here);
      Some(Outcome(ND.Success, rs))
    else if k.infinite && fuel == 0 then None
    else match Evaluate(t.children[0], here + [0], c, rs)
      case None => None
      case Some(o) =>
        ConfinedChild(rs, o.rs, here, 0);
        RepStep(t, here, c, rs, cnt, fuel, o)
  }

  /** How much repeating is left: the fuel of an infinite repeater, the runs still due of a finite one. */
  function RepMeasure(t: Tree, cnt: int, fuel: nat): (r: nat)
    requires t.info.kind.Repeater?
    ensures t.info.kind.infinite ==> r == fuel
    ensures !t.info.kind.infinite && cnt < t.info.kind.repeatCount ==> cnt + r == t.info.kind.repeatCount
  {
    if t.info.kind.infinite then fuel
    else if cnt < t.info.kind.repeatCount then t.info.kind.repeatCount - cnt else 0
  }

  /** One run of the child has ended with `o`: keep the running child current, or count the run, reset the child and go on. */
  function RepStep(t: Tree, here: Path, c: Ctx, rs: RunState, cnt: int, fuel: nat, o: Outcome): (r: Option<Outcome>)
    requires t.info.kind.Repeater? && |t.children| > 0
    requires Get(rs, here).count == cnt
    requires (t.info.kind.infinite && fuel > 0) || (!t.info.kind.infinite && cnt < t.info.kind.repeatCount)
    requires o.state == StateOf(t.children[0], here + [0], o.rs)
    requires Confined(rs, o.rs, here) && Get(o.rs, here) == Get(rs, here)
    ensures r.Some? ==> RepResult(t, here, cnt, rs, r.value)
    ensures r.Some? ==> Get(r.value.rs, here).started == Get(rs, here).started
    ensures r.Some? ==> Get(r.value.rs, here).state == Get(rs, here).state
    decreases t, 0, RepMeasure(t, cnt, fuel), 0
  {
    var k := t.info.kind;
    if o.state == ND.Running then
      RepRunning(t, here, cnt, rs, o);
      Some(Outcome(ND.Running, SetCurrent(t.children[0], here + [0], o.rs)))
    else
      var rs1 := Put(o.rs, here, Get(o.rs, here).(count := cnt + 1));
      var rs2 := Reset(t.children[0], here + [0], rs1);
      RepAfterRun(t, here, rs, o.rs, rs1, rs2);
      if !k.infinite && cnt + 1 >= k.repeatCount then
        RepFinish(t, here, cnt, rs, rs1, rs2);
        Some(Outcome(ND.Success, rs2))
      else
        match RepLoop(t, here, c, rs2, cnt + 1, if k.infinite then fuel - 1 else fuel)
        case None => None
        case Some(o2) =>
          RepNext(t, here, cnt, rs, rs2, o2);
          Some(o2)
  }

  lemma RepRunning(t: Tree, here: Path, cnt: int, rs: RunState, o: Outcome)
    requires t.info.kind.Repeater? && |t.children| > 0
    requires Get(rs, here).count == cnt
    requires o.state == ND.Running && o.state == StateOf(t.children[0], here + [0], o.rs)
    requires Confined(rs, o.rs, here) && Get(o.rs, here) == Get(rs, here)
    ensures RepResult(t, here, cnt, rs, Outcome(ND.Running, SetCurrent(t.children[0], here + [0], o.rs)))
  {
    UnderChild(here, 0, here + [0]);
  }

  lemma RepAfterRun(t: Tree, here: Path, rs: RunState, ors: RunState, rs1: RunState, rs2: RunState)
    requires |t.children| > 0
    requires Confined(rs, ors, here) && Get(ors, here) == Get(rs, here)
    requires rs1 == Put(ors, here, Get(ors, here).(count := Get(rs, here).count + 1))
    requires rs2 == Reset(t.children[0], here + [0], rs1)
    ensures Confined(rs, rs2, here)
    ensures Get(rs2, here) == Get(rs, here).(count := Get(rs, here).count + 1)
  {
    UnderChild(here, 0, here);
    assert Confined(ors, rs1, here) by { assert Under(here, here); }
    assert Confined(rs1, rs2, here) by {
      forall q | !Under(here, q) ensures Get(rs2, q) == Get(rs1, q) {
        UnderChild(here, 0, q);
      }
    }
    ConfinedTrans(rs, ors, rs1, here);
    ConfinedTrans(rs, rs1, rs2, here);
  }

  lemma RepFinish(t: Tree, here: Path, cnt: int, rs: RunState, rs1: RunState, rs2: RunState)
    requires t.info.kind.Repeater? && |t.children| > 0
    requires !t.info.kind.infinite && cnt < t.info.kind.repeatCount <= cnt + 1
    requires Confined(rs, rs2, here) && Get(rs2, here) == Get(rs, here).(count := cnt + 1)
    requires rs2 == Reset(t.children[0], here + [0], rs1)
    ensures RepResult(t, here, cnt, rs, Outcome(ND.Success, rs2))
  {
    ResetQuiets(t.children[0], here + [0], rs1);
  }

  lemma RepNext(t: Tree, here: Path, cnt: int, rs: RunState, rs2: RunState, o2: Outcome)
    requires t.info.kind.Repeater? && |t.children| > 0
    requires cnt < t.info.kind.repeatCount || t.info.kind.infinite
    requires !t.info.kind.infinite ==> cnt + 1 < t.info.kind.repeatCount
    requires Confined(rs, rs2, here) && Get(rs2, here) == Get(rs, here).(count := cnt + 1)
    requires RepResult(t, here, cnt + 1, rs2, o2)
    ensures RepResult(t, here, cnt, rs, o2)
  {
    ConfinedTrans(rs, rs2, o2.rs, here);
  }

  // ---- ConditionalAbort ----

  /**
   * `ShouldAbort`: `Self` aborts only while some child is running;
   * `LowerPriority` and `Both` always abort; `None` never does.
   */
  predicate ShouldAbort(t: Tree, here: Path, rs: RunState)
    requires t.info.kind.ConditionalAbort?
  {
    match t.info.kind.watchAbortType
    case AbortSelf => exists j :: 0 <= j < |t.children| && StateOf(t.children[j], here + [j], rs) == ND.Running
    case AbortLowerPriority => true
    case AbortBoth => true
    case AbortNone => false
  }

  /**
   * The conditional abort node: the watched condition is re-read; when it
   * changed and the node should abort, every child is aborted and the new
   * condition is the result; otherwise the first child runs.
   */
  function ConditionalAbortEval(t: Tree, here: Path, c: Ctx, rs: RunState): (r: Option<Outcome>)
    requires t.info.kind.ConditionalAbort? && |t.children| > 0
    ensures r.Some? ==> Confined(rs, r.value.rs, here)
    ensures r.Some? ==>
      var w := EC.EvaluateCondition(c.blackboard, t.info.kind.watchedVariable, Get(rs, here).lastWatched);
      Get(r.value.rs, here) == Get(rs, here).(lastWatched := w.lastWatched, conditionMet := w.met)
    ensures
      var w := EC.EvaluateCondition(c.blackboard, t.info.kind.watchedVariable, Get(rs, here).lastWatched);
      if w.met != Get(rs, here).conditionMet && ShouldAbort(t, here, rs) then
        && r.Some?
        && r.value.state == (if w.met then ND.Success else ND.Failure)
        && forall j :: 0 <= j < |t.children| ==> AbortShape(t.children[j], here + [j], rs, r.value.rs)
      else r.Some? ==> r.value.state == StateOf(t.children[0], here + [0], r.value.rs)
    decreases t, 1
  {
    var rt := Get(rs, here);
    var w := EC.EvaluateCondition(c.blackboard, t.info.kind.watchedVariable, rt.lastWatched);
    var rs1 := Put(rs, here, rt.(lastWatched := w.lastWatched, conditionMet := w.met));
    assert Confined(rs, rs1, here) by { assert Under(here, here); }
    if w.met != rt.conditionMet && ShouldAbort(t, here, rs1) then
      var rs2 := AbortAll(t, here, 0, rs1);
      CondAbortStep(t, here, rs, rs1, rs2);
      Some(Outcome(if w.met then ND.Success else ND.Failure, rs2))
    else
      assert ShouldAbort(t, here, rs1) == ShouldAbort(t, here, rs) by { ShouldAbortLocal(t, here, rs, rs1); }
      match FirstChild(t, here, c, rs1)
      case None => None
      case Some(o) => ConfinedTrans(rs, rs1, o.rs, here); Some(o)
  }

  /** `ShouldAbort` reads only the children's states. */
  lemma ShouldAbortLocal(t: Tree, here: Path, a: RunState, b: RunState)
    requires t.info.kind.ConditionalAbort?
    requires forall q :: q != here ==> Get(b, q) == Get(a, q)
    ensures ShouldAbort(t, here, b) == ShouldAbort(t, here, a)
  {
    forall j | 0 <= j < |t.children| ensures StateOf(t.children[j], here + [j], b) == StateOf(t.children[j], here + [j], a) {
      assert here + [j] != here by { assert |here + [j]| != |here|; }
    }
  }

  lemma CondAbortStep(t: Tree, here: Path, rs: RunState, rs1: RunState, rs2: RunState)
    requires t.info.kind.ConditionalAbort? && |t.children| > 0
    requires forall q :: q != here ==> Get(rs1, q) == Get(rs, q)
    requires Confined(rs, rs1, here)
    requires rs2 == AbortAll(t, here, 0, rs1)
    ensures Confined(rs, rs2, here) && Get(rs2, here) == Get(rs1, here)
    ensures ShouldAbort(t, here, rs1) == ShouldAbort(t, here, rs)
    ensures forall j :: 0 <= j < |t.children| ==> AbortShape(t.children[j], here + [j], rs, rs2)
  {
    ShouldAbortLocal(t, here, rs, rs1);
    ConfinedTrans(rs, rs1, rs2, here);
    forall j | 0 <= j < |t.children| ensures AbortShape(t.children[j], here + [j], rs, rs2) {
      forall q | Under(here + [j], q) ensures Get(rs1, q) == Get(rs, q) {
        UnderChild(here, j, q);
        assert q != here;
      }
      AbortShapeStable(t.children[j], here + [j], rs1, rs2, rs, rs2);
    }
  }

  // ---- Whole evaluations ----

  /** `Evaluate` is `OnEvaluate` after `Entered`, with only the node's own record rewritten. */
  lemma EvaluateUnfold(t: Tree, here: Path, c: Ctx, rs: RunState)
    ensures
      var o := OnEvaluate(t, here, c, Entered(t, here, c, rs));
      var r := Evaluate(t, here, c, rs);
      && (r.Some? <==> o.Some?)
      && (r.Some? ==>
            && (forall q :: q != here ==> Get(r.value.rs, q) == Get(o.value.rs, q))
            && r.value.rs.current == o.value.rs.current
            && r.value.rs.notifications == o.value.rs.notifications
            && r.value.state == (if t.info.hasData then o.value.state else ND.Invalid)
            && (r.value.state == ND.Running ==> Get(r.value.rs, here) == Get(o.value.rs, here).(state := ND.Running)))
  {
  }

  /** The states of the children of `t`, in order, as the `State` getter reads them. */
  function ChildStates(t: Tree, here: Path, rs: RunState): (r: seq<ND.NodeState>)
    ensures |r| == |t.children|
    ensures forall j :: 0 <= j < |t.children| ==> r[j] == StateOf(t.children[j], here + [j], rs)
  {
    seq(|t.children|, j requires 0 <= j < |t.children| => StateOf(t.children[j], here + [j], rs))
  }

  lemma {:induction false} CountAgrees(s: seq<ND.NodeState>, s2: seq<ND.NodeState>, x: ND.NodeState, lo: nat, hi: nat)
    requires lo <= hi <= |s| && hi <= |s2|
    requires forall j :: lo <= j < hi ==> s[j] == s2[j]
    ensures Count(s, x, lo, hi) == Count(s2, x, lo, hi)
    decreases hi - lo
  {
    if lo < hi {
      CountAgrees(s, s2, x, lo + 1, hi);
    }
  }

  /**
   * What a sequence or selector evaluation did, seen from outside: children
   * before `i0` untouched; all later children passed exactly when the
   * result is `Flip(stop)`; otherwise some child `k` produced the result,
   * the children between passed, the ones after `k` were not touched, and a
   * running `k` is the current running node and the stored index.
   */
  ghost predicate ScanFacts(t: Tree, here: Path, i0: nat, stop: ND.NodeState, rs: RunState, r: Outcome) {
    var n := |t.children|;
    && ChildrenSame(rs, r.rs, here, 0, i0)
    && (r.state == Flip(stop) <==>
          forall j :: i0 <= j < n ==> Passed(StateOf(t.children[j], here + [j], r.rs), stop))
    && (r.state != Flip(stop) ==>
          exists k :: i0 <= k < n
            && StateOf(t.children[k], here + [k], r.rs) == r.state
            && (r.state == ND.Running || r.state == stop)
            && (forall j :: i0 <= j < k ==> Passed(StateOf(t.children[j], here + [j], r.rs), stop))
            && ChildrenSame(rs, r.rs, here, k + 1, n)
            && (r.state == ND.Running ==> r.rs.current == Some(here + [k]) && Get(r.rs, here).childIndex == k))
  }

  lemma ScanFactsFromResult(t: Tree, here: Path, i0: nat, stop: ND.NodeState, rs: RunState, rs1: RunState, o: Outcome, r: Outcome)
    requires i0 < |t.children|
    requires stop == ND.Success || stop == ND.Failure
    requires ScanResult(t, here, i0, stop, rs1, o)
    requires forall q :: q != here ==> Get(rs1, q) == Get(rs, q)
    requires forall q :: q != here ==> Get(r.rs, q) == Get(o.rs, q)
    requires r.state == o.state && r.rs.current == o.rs.current
    requires r.state == ND.Running ==> Get(r.rs, here).childIndex == Get(o.rs, here).childIndex
    ensures ScanFacts(t, here, i0, stop, rs, r)
  {
    var n := |t.children|;
    var k := Get(o.rs, here).childIndex;
    ScanFrame(t, here, rs, rs1, o.rs, r.rs);
    assert ChildrenSame(rs, r.rs, here, 0, i0);
    if r.state != Flip(stop) {
      assert i0 <= k < n;
      assert StateOf(t.children[k], here + [k], r.rs) == r.state;
      assert !Passed(StateOf(t.children[k], here + [k], r.rs), stop);
      assert ChildrenSame(rs, r.rs, here, k + 1, n);
    } else {
      assert k == n;
    }
  }

  /** Changes at `here` alone neither move a child's state nor a child subtree. */
  lemma ScanFrame(t: Tree, here: Path, rs: RunState, rs1: RunState, ors: RunState, rrs: RunState)
    requires forall q :: q != here ==> Get(rs1, q) == Get(rs, q)
    requires forall q :: q != here ==> Get(rrs, q) == Get(ors, q)
    ensures forall j :: 0 <= j < |t.children| ==>
      StateOf(t.children[j], here + [j], rrs) == StateOf(t.children[j], here + [j], ors)
    ensures forall lo, hi :: ChildrenSame(rs1, ors, here, lo, hi) ==> ChildrenSame(rs, rrs, here, lo, hi)
  {
    forall j | 0 <= j < |t.children|
      ensures StateOf(t.children[j], here + [j], rrs) == StateOf(t.children[j], here + [j], ors)
    {
      assert here + [j] != here by { assert |here + [j]| != |here|; }
    }
    forall lo, hi | ChildrenSame(rs1, ors, here, lo, hi) ensures ChildrenSame(rs, rrs, here, lo, hi) {
      forall q | Under(here, q) && |q| > |here| && lo <= q[|here|] < hi ensures Get(rrs, q) == Get(rs, q) {
        assert q != here;
      }
    }
  }

  /**
   * A sequence (`stop` = `Failure`) or selector (`stop` = `Success`) that
   * was not started scans from its first child; one that was started
   * resumes at its stored index without running `OnEnter` again.
   */
  lemma ScanEvaluates(t: Tree, here: Path, c: Ctx, rs: RunState, stop: ND.NodeState)
    requires |t.children| > 0 && t.info.hasData
    requires (t.info.kind == Sequence && stop == ND.Failure) || (t.info.kind == Selector && stop == ND.Success)
    ensures
      var r := Evaluate(t, here, c, rs);
      var i0 := if Get(rs, here).started then Get(rs, here).childIndex else 0;
      r.Some? && i0 < |t.children| ==> ScanFacts(t, here, i0, stop, rs, r.value)
  {
    var rs1 := Entered(t, here, c, rs);
    var i0 := if Get(rs, here).started then Get(rs, here).childIndex else 0;
    assert Get(rs1, here).childIndex == i0;
    EvaluateUnfold(t, here, c, rs);
    var r := Evaluate(t, here, c, rs);
    if r.Some? && i0 < |t.children| {
      var o := ScanEval(t, here, stop, c, rs1);
      assert OnEvaluate(t, here, c, rs1) == o;
      ScanFactsFromResult(t, here, i0, stop, rs, rs1, o.value, r.value);
    }
  }

  lemma ParallelDecidesOnChildren(t: Tree, here: Path, rs1: RunState, o: Outcome, r: Outcome)
    requires t.info.kind.Parallel? && |t.children| > 0
    requires forall j :: 0 <= j < |t.children| && j < |Get(rs1, here).childStates| ==> Get(rs1, here).childStates[j] == ND.Running
    requires
      var n := |t.children|;
      var s1 := Get(o.rs, here).childStates;
      && ParStates(t, here, 0, rs1, o.rs)
      && o.state == Decide(t.info.kind.successPolicy, t.info.kind.failurePolicy, n,
           Count(s1, ND.Success, 0, n), Count(s1, ND.Failure, 0, n),
           exists j :: 0 <= j < n && s1[j] == ND.Running)
    requires forall q :: q != here ==> Get(r.rs, q) == Get(o.rs, q)
    requires r.state == o.state
    ensures
      var n := |t.children|;
      var cs := ChildStates(t, here, r.rs);
      r.state == Decide(t.info.kind.successPolicy, t.info.kind.failurePolicy, n,
        Count(cs, ND.Success, 0, n), Count(cs, ND.Failure, 0, n), ND.Running in cs)
  {
    var n := |t.children|;
    var s1 := Get(o.rs, here).childStates;
    var cs := ChildStates(t, here, r.rs);
    forall j | 0 <= j < n ensures s1[j] == cs[j] {
      assert here + [j] != here by { assert |here + [j]| != |here|; }
    }
    CountAgrees(s1, cs, ND.Success, 0, n);
    CountAgrees(s1, cs, ND.Failure, 0, n);
    assert (exists j :: 0 <= j < n && s1[j] == ND.Running) == (ND.Running in cs);
  }

  /**
   * A parallel node that was not started runs every child once and decides
   * by its policies on the states the children end in.
   */
  lemma ParallelFreshTicksEveryChild(t: Tree, here: Path, c: Ctx, rs: RunState)
    requires t.info.kind.Parallel? && |t.children| > 0 && t.info.hasData
    requires !Get(rs, here).started
    ensures
      var r := Evaluate(t, here, c, rs);
      var n := |t.children|;
      r.Some? ==>
        var cs := ChildStates(t, here, r.value.rs);
        r.value.state == Decide(t.info.kind.successPolicy, t.info.kind.failurePolicy, n,
          Count(cs, ND.Success, 0, n), Count(cs, ND.Failure, 0, n), ND.Running in cs)
  {
    var rs1 := Entered(t, here, c, rs);
    assert Get(rs1, here).childStates == Seqs.Repeat(ND.Running, |t.children|);
    EvaluateUnfold(t, here, c, rs);
    var r := Evaluate(t, here, c, rs);
    if r.Some? {
      var o := ParallelEval(t, here, c, rs1);
      assert OnEvaluate(t, here, c, rs1) == o;
      ParallelDecidesOnChildren(t, here, rs1, o.value, r.value);
    }
  }

  /**
   * A repeater with a child never fails: it runs or succeeds, and an
   * infinite one only ever returns `Running`. When a finite one that was
   * not started succeeds after running its child, the child's subtree is left reset.
   */
  lemma RepeaterNeverFails(t: Tree, here: Path, c: Ctx, rs: RunState)
    requires t.info.kind.Repeater? && |t.children| > 0 && t.info.hasData
    ensures
      var r := Evaluate(t, here, c, rs);
      r.Some? ==>
        && (r.value.state == ND.Running || r.value.state == ND.Success)
        && (t.info.kind.infinite ==> r.value.state == ND.Running)
        && (r.value.state == ND.Success && !Get(rs, here).started && 0 < t.info.kind.repeatCount ==>
              Quiet(t.children[0], here + [0], r.value.rs))
  {
    var rs1 := Entered(t, here, c, rs);
    EvaluateUnfold(t, here, c, rs);
    var r := Evaluate(t, here, c, rs);
    if r.Some? {
      var o := RepLoop(t, here, c, rs1, Get(rs1, here).count, c.fuel);
      assert OnEvaluate(t, here, c, rs1) == o;
      if r.value.state == ND.Success && !Get(rs, here).started && 0 < t.info.kind.repeatCount {
        assert Get(rs1, here).count == 0;
        QuietLocal(t.children[0], here + [0], o.value.rs, r.value.rs);
      }
    }
  }

  /** `Quiet` reads only the subtree. */
  lemma {:induction false} QuietLocal(t: Tree, p: Path, a: RunState, b: RunState)
    requires Quiet(t, p, a)
    requires forall q :: Under(p, q) ==> Get(b, q) == Get(a, q)
    ensures Quiet(t, p, b)
    decreases t
  {
    assert Under(p, p);
    forall j | 0 <= j < |t.children| ensures Quiet(t.children[j], p + [j], b) {
      forall q | Under(p + [j], q) ensures Get(b, q) == Get(a, q) {
        UnderChild(p, j, q);
      }
      QuietLocal(t.children[j], p + [j], a, b);
    }
  }

  /** An inverter with a child returns the inverse of what its child ends in. */
  lemma InverterInverts(t: Tree, here: Path, c: Ctx, rs: RunState)
    requires t.info.kind == Inverter && |t.children| > 0 && t.info.hasData
    ensures
      var r := Evaluate(t, here, c, rs);
      r.Some? ==> r.value.state == Invert(StateOf(t.children[0], here + [0], r.value.rs))
  {
    var rs1 := Entered(t, here, c, rs);
    EvaluateUnfold(t, here, c, rs);
    var r := Evaluate(t, here, c, rs);
    if r.Some? {
      var o := FirstChild(t, here, c, rs1);
      assert OnEvaluate(t, here, c, rs1) == Some(Outcome(Invert(o.value.state), o.value.rs));
      UnderChild(here, 0, here + [0]);
      assert here + [0] != here;
    }
  }

  /**
   * A node with no children finishes at once: a parallel node succeeds,
   * every other composite or decorator fails.
   */
  lemma EmptyNodeOutcome(t: Tree, here: Path, c: Ctx, rs: RunState)
    requires t.children == [] && t.info.hasData && !t.info.kind.CheckBlackboard? && !t.info.kind.Leaf?
    ensures Evaluate(t, here, c, rs).Some?
    ensures Evaluate(t, here, c, rs).value.state == (if t.info.kind.Parallel? then ND.Success else ND.Failure)
    ensures !Get(Evaluate(t, here, c, rs).value.rs, here).started
  {
    EvaluateUnfold(t, here, c, rs);
  }

  /** The root node returns what its first child ends in. */
  lemma RootFollowsFirstChild(t: Tree, here: Path, c: Ctx, rs: RunState)
    requires t.info.kind == RootKind && |t.children| > 0 && t.info.hasData
    ensures
      var r := Evaluate(t, here, c, rs);
      r.Some? ==> r.value.state == StateOf(t.children[0], here + [0], r.value.rs)
  {
    var rs1 := Entered(t, here, c, rs);
    EvaluateUnfold(t, here, c, rs);
    var r := Evaluate(t, here, c, rs);
    if r.Some? {
      var o := FirstChild(t, here, c, rs1);
      assert OnEvaluate(t, here, c, rs1) == o;
      UnderChild(here, 0, here + [0]);
      assert here + [0] != here;
    }
  }

  /** A check node finishes in one call: its result is the check's, and it is not left started. */
  lemma CheckFinishesAtOnce(t: Tree, here: Path, c: Ctx, rs: RunState)
    requires t.info.kind.CheckBlackboard? && t.info.hasData
    ensures Evaluate(t, here, c, rs).Some?
    ensures Evaluate(t, here, c, rs).value.state == EC.CheckOutcome(t.info.kind.check, c.blackboard)
    ensures !Get(Evaluate(t, here, c, rs).value.rs, here).started
  {
    EvaluateUnfold(t, here, c, rs);
  }
}
