/**
 * The Framework engine's `BehaviourTree` (its clock, its state, the child
 * enumeration and the depth-first walk) and `BehaviourTreeExecutor`, which
 * owns one runtime tree and decides what delta time it sees.
 */
module FwTree {
  import opened Wrappers
  import BB = FwBlackboard
  import N = FwNodes
  import FwTick

  datatype TreeState = Initialized | Running | Success | Failure

  /** A runtime tree: its root (possibly missing), last state, blackboard and clock `Time`. */
  datatype BehaviourTree = BehaviourTree(root: Option<N.Node>, treeState: TreeState, board: BB.Board, time: real)

  /** The tree state a root result maps to. */
  function TreeStateOf(s: N.NodeState): (r: TreeState)
    ensures r != Initialized
    ensures s == N.Running <==> r == Running
    ensures s == N.Success <==> r == Success
    ensures s == N.Failure <==> r == Failure
  {
    match s
    case Running => Running
    case Success => Success
    case Failure => Failure
  }

  /**
   * `BehaviourTree.Tick`: the clock advances by the delta time first, so
   * the nodes see the new `Time`; then the root is ticked and its result
   * becomes the tree state. A missing root raises.
   */
  function Tick(t: BehaviourTree, dt: real, now: real, leaf: string -> N.NodeState): (r: Option<BehaviourTree>)
    ensures t.root.None? ==> r.None?
    ensures r.Some? ==> r.value.time == t.time + dt && r.value.root.Some? && r.value.treeState != Initialized
    ensures t.root.Some? ==>
      var o := FwTick.Tick(t.root.value, dt, N.Env(t.time + dt, now, leaf), t.board);
      && (r.Some? <==> o.Some?)
      && (r.Some? ==> r.value == BehaviourTree(Some(o.value.node), TreeStateOf(o.value.state), o.value.board, t.time + dt))
  {
    match t.root
    case None => None
    case Some(root) =>
      var time := t.time + dt;
      var o := FwTick.Tick(root, dt, N.Env(time, now, leaf), t.board);
      if o.None? then None
      else Some(BehaviourTree(Some(o.value.node), TreeStateOf(o.value.state), o.value.board, time))
  }

  /**
   * `GetChildNodes`: the child of a root or decorator (if set), the
   * children of a composite in order, nothing for any other node.
   */
  function GetChildNodes(n: N.Node): (r: seq<N.Node>)
    ensures n.kind.Root? || N.IsDecorator(n.kind) ==> (n.kind.child.None? ==> r == []) && (n.kind.child.Some? ==> r == [n.kind.child.value])
    ensures N.IsComposite(n.kind) ==> r == N.ChildrenOf(n.kind)
    ensures !(n.kind.Root? || N.IsDecorator(n.kind) || N.IsComposite(n.kind)) ==> r == []
  {
    match n.kind
    case Root(c) => OptionList(c)
    case Reverse(c) => OptionList(c)
    case TimeBlock(c, _, _) => OptionList(c)
    case TimeDelay(c, _, _) => OptionList(c)
    case FixedDelay(c, _, _) => OptionList(c)
    case FixedBlock(c, _, _) => OptionList(c)
    case Sequence(cs, _) => cs
    case AwaitAllSuccess(cs, _) => cs
    case AwaitAllFailure(cs, _) => cs
    case ParallelSequence(cs) => cs
    case ParallelSelector(cs) => cs
    case _ => []
  }

  function OptionList(c: Option<N.Node>): (r: seq<N.Node>)
    ensures c.None? ==> r == []
    ensures c.Some? ==> r == [c.value]
  {
    if c.Some? then [c.value] else []
  }

  /**
   * `Dfs`: the order in which the visitor sees the nodes: the node itself,
   * then the walk of each child. A child tree's sub-tree is not part of the
   * walk.
   */
  function Dfs(n: N.Node): (r: seq<N.Node>)
    ensures |r| >= 1 && r[0] == n
    decreases n, 0
  {
    match n.kind
    case Root(c) => [n] + DfsOption(c)
    case Reverse(c) => [n] + DfsOption(c)
    case TimeBlock(c, _, _) => [n] + DfsOption(c)
    case TimeDelay(c, _, _) => [n] + DfsOption(c)
    case FixedDelay(c, _, _) => [n] + DfsOption(c)
    case FixedBlock(c, _, _) => [n] + DfsOption(c)
    case Sequence(cs, _) => [n] + DfsList(cs)
    case AwaitAllSuccess(cs, _) => [n] + DfsList(cs)
    case AwaitAllFailure(cs, _) => [n] + DfsList(cs)
    case ParallelSequence(cs) => [n] + DfsList(cs)
    case ParallelSelector(cs) => [n] + DfsList(cs)
    case _ => [n]
  }

  function DfsOption(c: Option<N.Node>): (r: seq<N.Node>)
    ensures c.None? ==> r == []
    decreases c, 0
  {
    match c
    case None => []
    case Some(x) => Dfs(x)
  }

  /** The walks of `cs`, one after the other. */
  function DfsList(cs: seq<N.Node>): (r: seq<N.Node>)
    ensures cs == [] ==> r == []
    decreases cs, 0
  {
    if cs == [] then [] else Dfs(cs[0]) + DfsList(cs[1..])
  }

  /**
   * The walk visits a node first and then walks the children exactly as
   * `GetChildNodes` lists them.
   */
  lemma DfsFollowsGetChildNodes(n: N.Node)
    ensures Dfs(n) == [n] + DfsList(GetChildNodes(n))
  {
    match n.kind
    case Root(c) => DfsOptionIsList(c);
    case Reverse(c) => DfsOptionIsList(c);
    case TimeBlock(c, _, _) => DfsOptionIsList(c);
    case TimeDelay(c, _, _) => DfsOptionIsList(c);
    case FixedDelay(c, _, _) => DfsOptionIsList(c);
    case FixedBlock(c, _, _) => DfsOptionIsList(c);
    case _ =>
  }

  lemma DfsOptionIsList(c: Option<N.Node>)
    ensures DfsOption(c) == DfsList(OptionList(c))
  {
    if c.Some? {
      assert OptionList(c)[1..] == [];
    }
  }

  /** Every child's walk is contained in the parent's, so the walk reaches every descendant. */
  lemma {:induction false} DfsReachesChildren(n: N.Node, c: N.Node)
    requires c in GetChildNodes(n)
    ensures forall x :: x in Dfs(c) ==> x in Dfs(n)
  {
    DfsFollowsGetChildNodes(n);
    DfsListContains(GetChildNodes(n), c);
  }

  lemma {:induction false} DfsListContains(cs: seq<N.Node>, c: N.Node)
    requires c in cs
    ensures forall x :: x in Dfs(c) ==> x in DfsList(cs)
    decreases |cs|
  {
    if cs[0] != c {
      DfsListContains(cs[1..], c);
    }
  }

  // ---- BehaviourTreeExecutor ----

  /** The executor's runtime tree (`null` before `Init` and after `Destory`). */
  datatype Executor = Executor(runtime: Option<BehaviourTree>)

  /** What an executor tick reports and the executor afterwards. */
  datatype Stepped = Stepped(state: TreeState, exec: Executor)

  /**
   * `BehaviourTreeExecutor.Tick`: without a runtime tree, `Failure` and
   * nothing else; otherwise the tree is ticked, with the delta time only
   * when it was already running, and 0 on its first tick and on the tick
   * after it finished.
   */
  function ExecutorTick(e: Executor, dt: real, now: real, leaf: string -> N.NodeState): (r: Option<Stepped>)
    ensures e.runtime.None? ==> r == Some(Stepped(Failure, e))
    ensures e.runtime.Some? ==>
      var d := if e.runtime.value.treeState == Running then dt else 0.0;
      var o := Tick(e.runtime.value, d, now, leaf);
      && (r.Some? <==> o.Some?)
      && (r.Some? ==> r.value == Stepped(o.value.treeState, Executor(o)))
  {
    match e.runtime
    case None => Some(Stepped(Failure, e))
    case Some(t) =>
      var o := Tick(t, if t.treeState == Running then dt else 0.0, now, leaf);
      if o.None? then None else Some(Stepped(o.value.treeState, Executor(o)))
  }

  /** `GetTreeState`: the runtime tree's state, or `Failure` without one. */
  function GetTreeState(e: Executor): (r: TreeState)
    ensures e.runtime.None? ==> r == Failure
    ensures e.runtime.Some? ==> r == e.runtime.value.treeState
  {
    if e.runtime.Some? then e.runtime.value.treeState else Failure
  }

  /** `Destory`: the runtime tree is dropped. */
  function Destory(e: Executor): (r: Executor)
    ensures r.runtime.None?
  {
    Executor(None)
  }

  /** After `Destory`, ticks report `Failure` and the state reads `Failure`. */
  lemma DestoryThenTickFails(e: Executor, dt: real, now: real, leaf: string -> N.NodeState)
    ensures ExecutorTick(Destory(e), dt, now, leaf) == Some(Stepped(Failure, Executor(None)))
    ensures GetTreeState(Destory(e)) == Failure
  {
  }

  /**
   * A tree that is not running (just created, or finished) is ticked with a
   * delta time of 0, whatever the frame's delta time was; the executor's
   * report is the new tree state.
   */
  lemma ExecutorGatesDelta(e: Executor, dt: real, now: real, leaf: string -> N.NodeState)
    requires e.runtime.Some? && e.runtime.value.treeState != Running
    ensures ExecutorTick(e, dt, now, leaf) == ExecutorTick(e, 0.0, now, leaf)
    ensures var r := ExecutorTick(e, dt, now, leaf);
      r.Some? ==> (r.value.exec.runtime.Some? && r.value.exec.runtime.value.time == e.runtime.value.time
                   && GetTreeState(r.value.exec) == r.value.state)
  {
  }
}
