/**
 * The nodes of the Framework engine: a closed sum of the node classes, each
 * node carrying the lifecycle flags of `Node` (`_started`, `_aborted`,
 * `_state`) and the per-activation fields its class declares. `Abort`,
 * `Reset`, the start and resume hooks and the editor's child editing live
 * here; `Tick` is in `FwTick`.
 */
module FwNodes {
  import opened Wrappers
  import BB = FwBlackboard
  import Seqs

  /** The Framework `NodeState`. */
  datatype NodeState = Running | Success | Failure

  /** `_started`, `_aborted` and `_state`. */
  datatype Life = Life(started: bool, aborted: bool, state: NodeState)

  /** A node that was never ticked: not started, not aborted, `Running`. */
  const Fresh := Life(false, false, Running)

  /**
   * The per-activation fields of the node classes; each class uses the ones
   * it declares and ignores the rest.
   */
  datatype Mem = Mem(
    lastTickIndex: int,     // Sequence, AwaitAllSuccess, AwaitAllFailure: `_lastTickIndex`
    complete: set<nat>,     // ParallelSequence, ParallelSelector: positions in `_completeNodes`
    found: bool,            // `_findFailure` / `_findSuccess`
    time: real,             // TimeBlock, TimeDelay: `_time`
    abortTime: real,        // TimeBlock, TimeDelay: `_abortTime`
    startTime: real,        // FixedDelay, FixedBlock: `_startTime`
    working: real,          // the working duration `_duration`
    created: bool)          // ChildTree: the runtime sub-tree exists

  /** Every field at its C# default. */
  const NoMem := Mem(0, {}, false, 0.0, 0.0, 0.0, 0.0, false)

  /**
   * The node classes with their serialized settings and children. A
   * `ChildTree` holds its runtime sub-tree's root and blackboard; until the
   * first start they are the template's own values, which is what cloning
   * the template gives. `Action` is `ActionNode` itself, which keeps the
   * default `OnTick`; `Custom` stands for every action or condition class a
   * game defines, whose outcome the host supplies.
   */
  datatype Kind =
    | Root(child: Option<Node>)
    | Sequence(children: seq<Node>, stateless: bool)
    | AwaitAllSuccess(children: seq<Node>, stateless: bool)
    | AwaitAllFailure(children: seq<Node>, stateless: bool)
    | ParallelSequence(children: seq<Node>)
    | ParallelSelector(children: seq<Node>)
    | Reverse(child: Option<Node>)
    | TimeBlock(child: Option<Node>, duration: real, recordTimeAfterAbort: bool)
    | TimeDelay(child: Option<Node>, delayTime: real, recordTimeAfterAbort: bool)
    | FixedDelay(child: Option<Node>, delayTime: real, recordTimeAfterAbort: bool)
    | FixedBlock(child: Option<Node>, duration: real, recordTimeAfterAbort: bool)
    | BlackboardVariable(variables: seq<BB.Variable>)
    | ChildTree(sub: Node, subBoard: BB.Board)
    | Action
    | Custom

  datatype Node = Node(guid: string, executeOrder: int, stopWhenAbort: bool, life: Life, kind: Kind, mem: Mem)

  predicate IsComposite(k: Kind) {
    k.Sequence? || k.AwaitAllSuccess? || k.AwaitAllFailure? || k.ParallelSequence? || k.ParallelSelector?
  }

  predicate IsDecorator(k: Kind) {
    k.Reverse? || k.TimeBlock? || k.TimeDelay? || k.FixedDelay? || k.FixedBlock?
  }

  /**
   * What the host supplies for one frame: the owning tree's `Time`, the
   * unscaled clock `Time.unscaledTime`, and the outcome of every action leaf.
   */
  datatype Env = Env(treeTime: real, now: real, leaf: string -> NodeState)

  /** `Reset`: clears the started flag and nothing else. */
  function Reset(n: Node): (r: Node)
    ensures !r.life.started
    ensures r.life.aborted == n.life.aborted && r.life.state == n.life.state
    ensures r.kind == n.kind && r.mem == n.mem && r.guid == n.guid
  {
    n.(life := n.life.(started := false))
  }

  /** A node an abort has dealt with: stopped, or marked aborted. */
  predicate Quiescent(n: Node) {
    !n.life.started || n.life.aborted
  }

  /**
   * `Abort`: nothing unless started and not yet aborted; otherwise the node
   * is marked aborted and its `OnAbort` runs, after which a node with
   * `stopWhenAbort` stops with `Failure`.
   */
  function Abort(n: Node, env: Env): (r: Node)
    ensures Quiescent(n) ==> r == n
    ensures !Quiescent(n) && n.stopWhenAbort ==> r.life == Life(false, false, Failure)
    ensures !Quiescent(n) && !n.stopWhenAbort ==> r.life == n.life.(aborted := true)
    ensures Quiescent(r)
    ensures r.guid == n.guid && r.executeOrder == n.executeOrder && r.stopWhenAbort == n.stopWhenAbort
    decreases n.kind, 1
  {
    if Quiescent(n) then n
    else
      var n1 := OnAbort(n.(life := n.life.(aborted := true)), env);
      if n.stopWhenAbort then n1.(life := Life(false, false, Failure)) else n1
  }

  /** The children a composite lists; none for the other kinds. */
  function ChildrenOf(k: Kind): seq<Node> {
    match k
    case Sequence(cs, _) => cs
    case AwaitAllSuccess(cs, _) => cs
    case AwaitAllFailure(cs, _) => cs
    case ParallelSequence(cs) => cs
    case ParallelSelector(cs) => cs
    case _ => []
  }

  /** `Abort` of an optional child (`child?.Abort`). */
  function AbortChild(c: Option<Node>, env: Env): (r: Option<Node>)
    ensures c.None? ==> r.None?
    ensures c.Some? ==> r == Some(Abort(c.value, env))
  {
    match c
    case None => None
    case Some(x) => Some(Abort(x, env))
  }

  /**
   * `OnAbort` of each class. Root and every decorator forward to their
   * child, composites to all children, a child tree to its sub-tree's root.
   * The time gates also record the moment of the abort; the fixed ones
   * count the time elapsed so far against the working duration.
   */
  function OnAbort(n: Node, env: Env): (r: Node)
    ensures r.life == n.life && r.guid == n.guid && r.executeOrder == n.executeOrder
    ensures r.stopWhenAbort == n.stopWhenAbort
    ensures !IsTimeGate(n.kind) ==> r.mem == n.mem
    decreases n.kind, 0
  {
    match n.kind
    case Root(c) => n.(kind := Root(AbortChild(c, env)))
    case Sequence(cs, sl) => n.(kind := Sequence(seq(|cs|, i requires 0 <= i < |cs| => Abort(cs[i], env)), sl))
    case AwaitAllSuccess(cs, sl) => n.(kind := AwaitAllSuccess(seq(|cs|, i requires 0 <= i < |cs| => Abort(cs[i], env)), sl))
    case AwaitAllFailure(cs, sl) => n.(kind := AwaitAllFailure(seq(|cs|, i requires 0 <= i < |cs| => Abort(cs[i], env)), sl))
    case ParallelSequence(cs) => n.(kind := ParallelSequence(seq(|cs|, i requires 0 <= i < |cs| => Abort(cs[i], env))))
    case ParallelSelector(cs) => n.(kind := ParallelSelector(seq(|cs|, i requires 0 <= i < |cs| => Abort(cs[i], env))))
    case Reverse(c) => n.(kind := Reverse(AbortChild(c, env)))
    case TimeBlock(c, d, rec) =>
      n.(kind := TimeBlock(AbortChild(c, env), d, rec),
         mem := if rec then n.mem.(abortTime := env.treeTime) else n.mem)
    case TimeDelay(c, d, rec) =>
      n.(kind := TimeDelay(AbortChild(c, env), d, rec),
         mem := if rec then n.mem.(abortTime := env.treeTime) else n.mem)
    case FixedDelay(c, d, rec) =>
      n.(kind := FixedDelay(AbortChild(c, env), d, rec), mem := FixedOnAbort(n.mem, rec, env.now))
    case FixedBlock(c, d, rec) =>
      n.(kind := FixedBlock(AbortChild(c, env), d, rec), mem := FixedOnAbort(n.mem, rec, env.now))
    case BlackboardVariable(_) => n
    case ChildTree(sub, b) => n.(kind := ChildTree(Abort(sub, env), b))
    case Action => n
    case Custom => n
  }

  // ---- The fixed-clock gates ----

  /** The moment a fixed-clock gate opens: its start plus its working duration. */
  function Deadline(m: Mem): real {
    m.startTime + m.working
  }

  /**
   * `OnAbort` of `FixedDelayNode`: the time since the start is taken off the
   * working duration; with `recordTimeAfterAbort` the start moves to now.
   */
  function FixedOnAbort(m: Mem, record: bool, now: real): (r: Mem)
    ensures record ==> Deadline(r) == Deadline(m) && r.startTime == now
    ensures !record ==> r.startTime == m.startTime && r.working == m.working - (now - m.startTime)
  {
    var m1 := m.(working := m.working - (now - m.startTime));
    if record then m1.(startTime := now) else m1
  }

  /**
   * `OnResume` of `FixedDelayNode`: with `recordTimeAfterAbort` the time
   * spent aborted is taken off too; the start moves to now in any case.
   */
  function FixedOnResume(m: Mem, record: bool, now: real): (r: Mem)
    ensures record ==> Deadline(r) == Deadline(m)
    ensures !record ==> r.working == m.working
    ensures r.startTime == now
  {
    var m1 := if record then m.(working := m.working - (now - m.startTime)) else m;
    m1.(startTime := now)
  }

  /**
   * Across an abort at `a` and the resume at `b`: with
   * `recordTimeAfterAbort` the gate opens when it would have without the
   * abort; without it, the gate opens later by exactly the time spent aborted.
   */
  lemma FixedAbortResumeDeadline(m: Mem, record: bool, a: real, b: real)
    ensures record ==>
      Deadline(FixedOnResume(FixedOnAbort(m, record, a), record, b)) == Deadline(m)
    ensures !record ==>
      Deadline(FixedOnResume(FixedOnAbort(m, record, a), record, b)) == Deadline(m) + (b - a)
  {
  }

  /**
   * `OnResume` of each class: the time gates that record time after an
   * abort add the time spent aborted (tree time for the scaled gates);
   * the fixed gates also restart their clock.
   */
  function OnResume(n: Node, env: Env): (r: Node)
    ensures r.kind == n.kind && r.life == n.life && r.guid == n.guid && r.stopWhenAbort == n.stopWhenAbort
    ensures !IsTimeGate(n.kind) ==> r == n
  {
    match n.kind
    case TimeBlock(_, _, rec) =>
      if rec then n.(mem := n.mem.(time := n.mem.time + (env.treeTime - n.mem.abortTime))) else n
    case TimeDelay(_, _, rec) =>
      if rec then n.(mem := n.mem.(time := n.mem.time + (env.treeTime - n.mem.abortTime))) else n
    case FixedDelay(_, _, rec) => n.(mem := FixedOnResume(n.mem, rec, env.now))
    case FixedBlock(_, _, rec) => n.(mem := FixedOnResume(n.mem, rec, env.now))
    case _ => n
  }

  predicate IsTimeGate(k: Kind) {
    k.TimeBlock? || k.TimeDelay? || k.FixedDelay? || k.FixedBlock?
  }

  /**
   * `OnStart` of each class: the sequences forget the remembered child,
   * the parallel nodes forget completed children, the gates take a fresh
   * working duration and clock, a child tree creates its runtime sub-tree
   * if it has none.
   */
  function OnStart(n: Node, env: Env): (r: Node)
    ensures r.kind == n.kind && r.life == n.life && r.guid == n.guid && r.stopWhenAbort == n.stopWhenAbort
    ensures n.kind.Sequence? || n.kind.AwaitAllSuccess? || n.kind.AwaitAllFailure? ==> r.mem.lastTickIndex == -1
    ensures n.kind.ParallelSequence? || n.kind.ParallelSelector? ==> r.mem.complete == {} && !r.mem.found
    ensures n.kind.TimeBlock? ==> r.mem.time == 0.0 && r.mem.working == n.kind.duration
    ensures n.kind.TimeDelay? ==> r.mem.time == 0.0 && r.mem.working == n.kind.delayTime
    ensures n.kind.FixedDelay? ==> r.mem.startTime == env.now && r.mem.working == n.kind.delayTime
    ensures n.kind.FixedBlock? ==> r.mem.startTime == env.now && r.mem.working == n.kind.duration
    ensures n.kind.ChildTree? ==> r.mem.created
  {
    match n.kind
    case Sequence(_, _) => n.(mem := n.mem.(lastTickIndex := -1))
    case AwaitAllSuccess(_, _) => n.(mem := n.mem.(lastTickIndex := -1))
    case AwaitAllFailure(_, _) => n.(mem := n.mem.(lastTickIndex := -1))
    case ParallelSequence(_) => n.(mem := n.mem.(complete := {}, found := false))
    case ParallelSelector(_) => n.(mem := n.mem.(complete := {}, found := false))
    case TimeBlock(_, d, _) => n.(mem := n.mem.(time := 0.0, working := d))
    case TimeDelay(_, d, _) => n.(mem := n.mem.(time := 0.0, working := d))
    case FixedDelay(_, d, _) => n.(mem := n.mem.(startTime := env.now, working := d))
    case FixedBlock(_, d, _) => n.(mem := n.mem.(startTime := env.now, working := d))
    case ChildTree(_, _) => if n.mem.created then n else n.(mem := n.mem.(created := true))
    case _ => n
  }

  /** A child tree that has its runtime sub-tree keeps it, whatever it has run since: starting again reuses it. */
  lemma ChildTreeStartReuses(n: Node, env: Env)
    requires n.kind.ChildTree? && n.mem.created
    ensures OnStart(n, env) == n
  {
  }

  // ---- FixedBlockNode as written ----

  /**
   * The fields of a `FixedBlockNode` as the source has them: its serialized
   * `duration`, which `OnAbort` and `OnResume` reduce, and the working copy
   * that `OnStart` takes but `OnTick` never reads.
   */
  datatype BlockFields = BlockFields(duration: real, startTime: real, working: real)

  function BlockStartAsWritten(f: BlockFields, now: real): BlockFields {
    f.(startTime := now, working := f.duration)
  }

  function BlockAbortAsWritten(f: BlockFields, record: bool, now: real): BlockFields {
    var f1 := f.(duration := f.duration - (now - f.startTime));
    if record then f1.(startTime := now) else f1
  }

  /** Whether the block still holds (`Running`) as written: the serialized duration decides. */
  function BlockHoldsAsWritten(f: BlockFields, now: real): bool {
    now - f.startTime < f.duration
  }

  /**
   * A block of 5 seconds started at 0 and aborted (and so stopped) at 2 is
   * started again at 10: as written it lets go at 13, after 3 seconds,
   * because the abort shortened the serialized duration for good.
   */
  lemma FixedBlockAbortShortensLaterRuns()
    ensures
      var f0 := BlockStartAsWritten(BlockFields(5.0, 0.0, 0.0), 0.0);
      var f1 := BlockAbortAsWritten(f0, false, 2.0);
      var f2 := BlockStartAsWritten(f1, 10.0);
      && f2.duration == 3.0
      && !BlockHoldsAsWritten(f2, 13.0)
  {
  }

  /**
   * The same history in the corrected node: the abort reduces the working
   * duration only, so every start holds the block for the full configured
   * duration.
   */
  lemma FixedBlockStartIsFullDuration(n: Node, env: Env, a: real)
    requires n.kind.FixedBlock?
    ensures
      var aborted := n.(mem := FixedOnAbort(n.mem, n.kind.recordTimeAfterAbort, a));
      var restarted := OnStart(aborted, env);
      Deadline(restarted.mem) == env.now + n.kind.duration
  {
  }

  // ---- Editing children (editor only) ----

  /** The outcome of an editing call, the parent afterwards, and the child afterwards. */
  datatype Edit = Edit(ok: bool, parent: Node, child: Node)

  /** `RootNode.AddChildNode`: the child replaces any previous one and gets order 1. */
  function RootAddChildNode(n: Node, c: Node): (r: Edit)
    requires n.kind.Root?
    ensures r.ok && r.parent.kind == Root(Some(r.child)) && r.child == c.(executeOrder := 1)
    ensures r.parent == n.(kind := r.parent.kind)
  {
    var c1 := c.(executeOrder := 1);
    Edit(true, n.(kind := Root(Some(c1))), c1)
  }

  /** `RootNode.RemoveChildNode`: only the current child is removed; it gets order 1. */
  function RootRemoveChildNode(n: Node, c: Node): (r: Edit)
    requires n.kind.Root?
    ensures r.ok <==> n.kind.child == Some(c)
    ensures r.ok ==> r.parent == n.(kind := Root(None)) && r.child == c.(executeOrder := 1)
    ensures !r.ok ==> r.parent == n && r.child == c
  {
    if n.kind.child == Some(c) then Edit(true, n.(kind := Root(None)), c.(executeOrder := 1))
    else Edit(false, n, c)
  }

  /** Every child's order is its position plus one. */
  predicate Numbered(cs: seq<Node>) {
    forall i :: 0 <= i < |cs| ==> cs[i].executeOrder == i + 1
  }

  /** `executeOrder` set to the position plus one, nothing else changed. */
  function Renumber(cs: seq<Node>): (r: seq<Node>)
    ensures |r| == |cs| && Numbered(r)
    ensures forall i :: 0 <= i < |cs| ==> r[i] == cs[i].(executeOrder := i + 1)
  {
    seq(|cs|, i requires 0 <= i < |cs| => cs[i].(executeOrder := i + 1))
  }

  /** The composite with its children list replaced. */
  function WithChildren(k: Kind, cs: seq<Node>): (r: Kind)
    requires IsComposite(k)
    ensures IsComposite(r) && ChildrenOf(r) == cs
  {
    match k
    case Sequence(_, sl) => Sequence(cs, sl)
    case AwaitAllSuccess(_, sl) => AwaitAllSuccess(cs, sl)
    case AwaitAllFailure(_, sl) => AwaitAllFailure(cs, sl)
    case ParallelSequence(_) => ParallelSequence(cs)
    case ParallelSelector(_) => ParallelSelector(cs)
  }

  /** `CompositeNode.AddChildNode`: appended, with the new count as its order. */
  function CompositeAddChildNode(n: Node, c: Node): (r: Edit)
    requires IsComposite(n.kind)
    ensures r.ok
    ensures ChildrenOf(r.parent.kind) == ChildrenOf(n.kind) + [r.child]
    ensures r.child == c.(executeOrder := |ChildrenOf(n.kind)| + 1)
    ensures Numbered(ChildrenOf(n.kind)) ==> Numbered(ChildrenOf(r.parent.kind))
  {
    var c1 := c.(executeOrder := |ChildrenOf(n.kind)| + 1);
    Edit(true, n.(kind := WithChildren(n.kind, ChildrenOf(n.kind) + [c1])), c1)
  }

  /**
   * `CompositeNode.RemoveChildNode`: the first occurrence goes; the child
   * gets order 1 whether or not it was there, and the remaining children are
   * numbered 1..n in list order.
   */
  function CompositeRemoveChildNode(n: Node, c: Node): (r: Edit)
    requires IsComposite(n.kind)
    ensures r.ok <==> c in ChildrenOf(n.kind)
    ensures r.child == c.(executeOrder := 1)
    ensures Numbered(ChildrenOf(r.parent.kind))
    ensures |ChildrenOf(r.parent.kind)| == |ChildrenOf(n.kind)| - (if r.ok then 1 else 0)
    ensures forall i :: 0 <= i < |ChildrenOf(r.parent.kind)| ==>
      ChildrenOf(r.parent.kind)[i].(executeOrder := 0) == Seqs.RemoveFirst(ChildrenOf(n.kind), c)[i].(executeOrder := 0)
  {
    var rest := Seqs.RemoveFirst(ChildrenOf(n.kind), c);
    Edit(c in ChildrenOf(n.kind), n.(kind := WithChildren(n.kind, Renumber(rest))), c.(executeOrder := 1))
  }

  /** Adding a child to a numbered composite and removing it again gives back the same children. */
  lemma AddThenRemoveChildNode(n: Node, c: Node)
    requires IsComposite(n.kind) && Numbered(ChildrenOf(n.kind))
    ensures
      var a := CompositeAddChildNode(n, c);
      var r := CompositeRemoveChildNode(a.parent, a.child);
      r.ok && ChildrenOf(r.parent.kind) == ChildrenOf(n.kind)
  {
    var cs := ChildrenOf(n.kind);
    var a := CompositeAddChildNode(n, c);
    var s := ChildrenOf(a.parent.kind);
    assert s == cs + [a.child];
    var k := Seqs.IndexOf(s, a.child);
    assert k == |cs|;
    assert s[..k] == cs;
    assert Seqs.RemoveFirst(s, a.child) == cs;
    var r := CompositeRemoveChildNode(a.parent, a.child);
    assert forall i :: 0 <= i < |cs| ==> ChildrenOf(r.parent.kind)[i] == cs[i].(executeOrder := i + 1) == cs[i];
  }
}
