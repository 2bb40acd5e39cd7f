/**
 * `Node.Tick` of the Framework engine and the `OnTick` of every node class.
 * A tick returns the node's new state, the node afterwards and the
 * blackboard afterwards; `None` is the `NullReferenceException` a missing
 * child raises.
 */
module FwTick {
  import opened Wrappers
  import BB = FwBlackboard
  import opened FwNodes

  datatype Ticked = Ticked(state: NodeState, node: Node, board: BB.Board)

  /** The fields a tick never changes: identity, order and abort policy. */
  predicate SameHeader(a: Node, b: Node) {
    a.guid == b.guid && a.executeOrder == b.executeOrder && a.stopWhenAbort == b.stopWhenAbort
  }

  /**
   * How `Tick` leaves a node that returned `s`: the state is `s`, the node
   * is started exactly while `Running`, and not aborted.
   */
  predicate Ended(x: Node, s: NodeState) {
    x.life.state == s && (x.life.started <==> s == Running) && !x.life.aborted
  }

  /**
   * `Node.Tick`: an aborted node resumes, a node not started starts, and on
   * either of those ticks `OnTick` sees a delta time of 0. A `Success` or
   * `Failure` stops the node.
   */
  function Tick(n: Node, dt: real, env: Env, bb: BB.Board): (r: Option<Ticked>)
    ensures r.Some? ==> SameHeader(r.value.node, n) && Ended(r.value.node, r.value.state)
    decreases n.kind, 3, 0
  {
    var n1 := if n.life.aborted then OnResume(n.(life := n.life.(aborted := false)), env) else n;
    var n2 := if !n1.life.started then OnStart(n1.(life := n1.life.(started := true)), env) else n1;
    var d := if n.life.aborted || !n.life.started then 0.0 else dt;
    var o := OnTick(n2, d, env, bb);
    if o.None? then None
    else
      var t := o.value;
      var life := if t.state == Running then Life(true, false, Running) else Life(false, false, t.state);
      Some(Ticked(t.state, t.node.(life := life), t.board))
  }

  /** `OnTick` of each class. */
  function OnTick(n: Node, dt: real, env: Env, bb: BB.Board): (r: Option<Ticked>)
    ensures r.Some? ==> SameHeader(r.value.node, n)
    decreases n.kind, 2, 0
  {
    match n.kind
    case Root(_) => RootTick(n, dt, env, bb)
    case Sequence(_, _) => SequenceTick(n, dt, env, bb)
    case AwaitAllSuccess(_, _) => SequenceTick(n, dt, env, bb)
    case AwaitAllFailure(_, _) => SequenceTick(n, dt, env, bb)
    case ParallelSequence(_) => ParallelTick(n, dt, env, bb, false)
    case ParallelSelector(_) => ParallelTick(n, dt, env, bb, false)
    case Reverse(_) => ReverseTick(n, dt, env, bb)
    case TimeBlock(_, _, _) => TimeBlockTick(n, dt, env, bb)
    case TimeDelay(_, _, _) => TimeDelayTick(n, dt, env, bb)
    case FixedDelay(_, _, _) => FixedDelayTick(n, dt, env, bb)
    case FixedBlock(_, _, _) => FixedBlockTick(n, dt, env, bb)
    case BlackboardVariable(vs) => Some(Ticked(Success, n, BB.ApplyAll(vs, bb)))
    case ChildTree(_, _) => ChildTreeTick(n, dt, env, bb)
    case Action => Some(Ticked(Failure, n, bb))
    case Custom => Some(Ticked(env.leaf(n.guid), n, bb))
  }

  // ---- Root ----

  /** `RootNode.OnTick`: the child's result, or `Success` without a child. */
  function RootTick(n: Node, dt: real, env: Env, bb: BB.Board): (r: Option<Ticked>)
    requires n.kind.Root?
    ensures n.kind.child.None? ==> r == Some(Ticked(Success, n, bb))
    ensures r.Some? ==> r.value.node.kind.Root? && r.value.node.mem == n.mem && SameHeader(r.value.node, n)
    ensures r.Some? ==> r.value.node.life == n.life
    ensures r.Some? && n.kind.child.Some? ==>
      r.value.node.kind.child.Some? && Ended(r.value.node.kind.child.value, r.value.state)
    decreases n.kind, 1, 0
  {
    match n.kind.child
    case None => Some(Ticked(Success, n, bb))
    case Some(c) =>
      var o := Tick(c, dt, env, bb);
      if o.None? then None
      else Some(Ticked(o.value.state, n.(kind := Root(Some(o.value.node))), o.value.board))
  }

  // ---- Sequence, AwaitAllSuccess, AwaitAllFailure ----

  predicate IsOrdered(k: Kind) {
    k.Sequence? || k.AwaitAllSuccess? || k.AwaitAllFailure?
  }

  /** Where a tick starts: 0 when stateless or nothing is remembered, else the remembered child. */
  function StartIndex(stateless: bool, last: int): (r: nat)
    ensures stateless ==> r == 0
    ensures !stateless && last >= 0 ==> r == last
  {
    if stateless then 0 else if last < 0 then 0 else last
  }

  /**
   * The child result that lets the scan move on: `Success` for Sequence and
   * AwaitAllSuccess, `Failure` for AwaitAllFailure.
   */
  function PassState(k: Kind): NodeState {
    if k.AwaitAllFailure? then Failure else Success
  }

  /** The outcome of scanning children in order: all passed, or the first that did not. */
  datatype Pass =
    | Finished(children: seq<Node>, board: BB.Board)
    | Stopped(at: nat, state: NodeState, children: seq<Node>, board: BB.Board)

  /**
   * The `while` loop of the ordered composites from position `i`: each child
   * is ticked once, in order, until one returns something other than `pass`.
   * `cur` is the list as ticked so far; from `i` on it is still the list
   * the tick began with.
   */
  function Ordered(k: Kind, i: nat, cur: seq<Node>, pass: NodeState, dt: real, env: Env, bb: BB.Board): (r: Option<Pass>)
    requires IsOrdered(k)
    requires i <= |k.children| && |cur| == |k.children|
    requires forall j :: i <= j < |cur| ==> cur[j] == k.children[j]
    ensures r.Some? ==> ScannedFrom(cur, i, r.value, pass)
    ensures r.Some? && r.value.Stopped? ==> forall j :: r.value.at < j < |cur| ==> r.value.children[j] == cur[j]
    decreases k, 0, |k.children| - i
  {
    if i == |k.children| then Some(Finished(cur, bb))
    else
      var o := Tick(k.children[i], dt, env, bb);
      if o.None? then None
      else
        var t := o.value;
        if t.state == pass then
          var r := Ordered(k, i + 1, cur[i := t.node], pass, dt, env, t.board);
          if r.None? then None
          else
            OrderedPassed(cur, i, t.node, pass, r.value);
            r
        else
          OrderedStopped(cur, i, t.node, t.state, pass, t.board);
          Some(Stopped(i, t.state, cur[i := t.node], t.board))
  }

  lemma OrderedPassed(cur: seq<Node>, i: nat, x: Node, pass: NodeState, p: Pass)
    requires i < |cur| && Ended(x, pass)
    requires ScannedFrom(cur[i := x], i + 1, p, pass)
    requires p.Stopped? ==> forall j :: p.at < j < |cur| ==> p.children[j] == cur[i := x][j]
    ensures ScannedFrom(cur, i, p, pass)
    ensures p.Stopped? ==> forall j :: p.at < j < |cur| ==> p.children[j] == cur[j]
  {
    assert p.children[i] == x;
  }

  lemma OrderedStopped(cur: seq<Node>, i: nat, x: Node, st: NodeState, pass: NodeState, b: BB.Board)
    requires i < |cur| && Ended(x, st) && st != pass
    ensures ScannedFrom(cur, i, Stopped(i, st, cur[i := x], b), pass)
    ensures forall j :: i < j < |cur| ==> cur[i := x][j] == cur[j]
  {
  }

  /**
   * With `stateless`, stopping at a child other than the remembered one
   * aborts the remembered one; a remembered position past the end raises.
   */
  function AbortRemembered(cur: seq<Node>, stateless: bool, at: int, last: int, env: Env): (r: Option<seq<Node>>)
    ensures !(stateless && at != last && last >= 0) ==> r == Some(cur)
    ensures stateless && at != last && 0 <= last < |cur| ==> r == Some(cur[last := Abort(cur[last], env)])
    ensures stateless && at != last && last >= |cur| ==> r.None?
  {
    if stateless && at != last && last >= 0 then
      if last < |cur| then Some(cur[last := Abort(cur[last], env)]) else None
    else Some(cur)
  }

  /** `kind` with its children replaced, and everything else kept. */
  predicate Rechildren(a: Kind, b: Kind) {
    IsComposite(a) && IsComposite(b) && b == WithChildren(a, ChildrenOf(b)) && |ChildrenOf(b)| == |ChildrenOf(a)|
  }

  /**
   * What a tick of an ordered composite `n` promises about its outcome `t`.
   * Children before the start position are not ticked (the remembered one
   * may be aborted); the "all passed" result (`Success`, or `Failure` for
   * AwaitAllFailure) comes exactly when every child from the start position
   * ended this tick with the passing state; AwaitAllSuccess never fails and
   * AwaitAllFailure never succeeds; a `Running` Sequence remembers the first
   * child from the start position that did not succeed, and that child is
   * running.
   */
  predicate OrderedOutcome(n: Node, t: Ticked)
    requires IsOrdered(n.kind)
  {
    var start := StartIndex(n.kind.stateless, n.mem.lastTickIndex);
    var cs := ChildrenOf(t.node.kind);
    && Rechildren(n.kind, t.node.kind) && SameHeader(t.node, n) && t.node.life == n.life
    && (forall j :: 0 <= j < start && j < |cs| && j != n.mem.lastTickIndex ==> cs[j] == n.kind.children[j])
    && (t.state == (if n.kind.AwaitAllFailure? then Failure else Success) <==>
          forall j :: start <= j < |cs| ==> Ended(cs[j], PassState(n.kind)))
    && (n.kind.AwaitAllSuccess? ==> t.state != Failure)
    && (n.kind.AwaitAllFailure? ==> t.state != Success)
    && (n.kind.Sequence? && t.state == Running ==>
          var last := t.node.mem.lastTickIndex;
          && start <= last < |cs|
          && cs[last].life.state == Running
          && forall j :: start <= j < last ==> Ended(cs[j], Success))
  }

  /** What `Ordered` from `start` over `cs0` reports in `p`. */
  predicate ScannedFrom(cs0: seq<Node>, start: nat, p: Pass, pass: NodeState) {
    && |p.children| == |cs0| && start <= |cs0|
    && (forall j :: 0 <= j < start ==> p.children[j] == cs0[j])
    && (p.Finished? ==> forall j :: start <= j < |cs0| ==> Ended(p.children[j], pass))
    && (p.Stopped? ==>
          && start <= p.at < |cs0|
          && p.state != pass
          && Ended(p.children[p.at], p.state)
          && (forall j :: start <= j < p.at ==> Ended(p.children[j], pass)))
  }

  /** `OnTick` of SequenceNode, AwaitAllSuccessNode and AwaitAllFailureNode. */
  function SequenceTick(n: Node, dt: real, env: Env, bb: BB.Board): (r: Option<Ticked>)
    requires IsOrdered(n.kind)
    ensures r.Some? ==> OrderedOutcome(n, r.value)
    decreases n.kind, 1, 0
  {
    var k := n.kind;
    var start := StartIndex(k.stateless, n.mem.lastTickIndex);
    if start >= |k.children| then Some(Ticked(if k.AwaitAllFailure? then Failure else Success, n, bb))
    else
      var o := Ordered(k, start, k.children, PassState(k), dt, env, bb);
      if o.None? then None
      else SequenceResult(n, o.value, env)
  }

  /**
   * The end of an ordered composite's tick, given the scan `p` from the
   * start position: all passed gives the "all passed" result; a stop aborts
   * the remembered child when stateless and gives `Running` (remembering
   * the position), except that a Sequence stopped by a `Failure` fails.
   */
  function SequenceResult(n: Node, p: Pass, env: Env): (r: Option<Ticked>)
    requires IsOrdered(n.kind)
    requires ScannedFrom(n.kind.children, StartIndex(n.kind.stateless, n.mem.lastTickIndex), p, PassState(n.kind))
    ensures r.Some? ==> OrderedOutcome(n, r.value)
  {
    var k := n.kind;
    var last := n.mem.lastTickIndex;
    var start := StartIndex(k.stateless, last);
    match p
    case Finished(cs, b) =>
      FinishedOutcome(n, p);
      Some(Ticked(if k.AwaitAllFailure? then Failure else Success, n.(kind := WithChildren(k, cs)), b))
    case Stopped(at, s, cs, b) =>
      var a := AbortRemembered(cs, k.stateless, at, last, env);
      if a.None? then None
      else
        StoppedOutcome(n, p, env, a.value);
        if k.Sequence? && s == Failure then Some(Ticked(Failure, n.(kind := WithChildren(k, a.value)), b))
        else Some(Ticked(Running, n.(kind := WithChildren(k, a.value), mem := n.mem.(lastTickIndex := at)), b))
  }

  lemma FinishedOutcome(n: Node, p: Pass)
    requires IsOrdered(n.kind) && p.Finished?
    requires ScannedFrom(n.kind.children, StartIndex(n.kind.stateless, n.mem.lastTickIndex), p, PassState(n.kind))
    ensures OrderedOutcome(n, Ticked(if n.kind.AwaitAllFailure? then Failure else Success, n.(kind := WithChildren(n.kind, p.children)), p.board))
  {
  }

  lemma StoppedOutcome(n: Node, p: Pass, env: Env, a: seq<Node>)
    requires IsOrdered(n.kind) && p.Stopped?
    requires ScannedFrom(n.kind.children, StartIndex(n.kind.stateless, n.mem.lastTickIndex), p, PassState(n.kind))
    requires AbortRemembered(p.children, n.kind.stateless, p.at, n.mem.lastTickIndex, env) == Some(a)
    ensures n.kind.Sequence? && p.state == Failure ==>
      OrderedOutcome(n, Ticked(Failure, n.(kind := WithChildren(n.kind, a)), p.board))
    ensures !(n.kind.Sequence? && p.state == Failure) ==>
      OrderedOutcome(n, Ticked(Running, n.(kind := WithChildren(n.kind, a), mem := n.mem.(lastTickIndex := p.at)), p.board))
  {
    var start := StartIndex(n.kind.stateless, n.mem.lastTickIndex);
    assert a[p.at] == p.children[p.at] && !Ended(a[p.at], PassState(n.kind));
    assert forall j :: start <= j < p.at ==> a[j] == p.children[j];
  }

  // ---- ParallelSequence, ParallelSelector ----

  /** What one sweep over a parallel node's children leaves behind. */
  datatype Swept = Swept(children: seq<Node>, complete: set<nat>, found: bool, board: BB.Board)

  /**
   * The `foreach` of the parallel nodes from position `i`: a completed child
   * is skipped, every other one is ticked once, in order; a terminal result
   * completes it, and the result `target` (`Failure` for ParallelSequence,
   * `Success` for ParallelSelector) is remembered.
   */
  function Sweep(k: Kind, i: nat, cur: seq<Node>, complete: set<nat>, found: bool, target: NodeState,
                 dt: real, env: Env, bb: BB.Board): (r: Option<Swept>)
    requires k.ParallelSequence? || k.ParallelSelector?
    requires i <= |k.children| && |cur| == |k.children|
    requires forall j :: i <= j < |cur| ==> cur[j] == k.children[j]
    ensures r.Some? ==> SweptFrom(cur, i, complete, found, target, r.value)
    decreases k, 0, |k.children| - i
  {
    if i == |k.children| then Some(Swept(cur, complete, found, bb))
    else if i in complete then
      var r := Sweep(k, i + 1, cur, complete, found, target, dt, env, bb);
      if r.None? then None
      else
        SweepSkip(cur, i, complete, found, target, r.value);
        r
    else
      var o := Tick(k.children[i], dt, env, bb);
      if o.None? then None
      else
        var t := o.value;
        var r := Sweep(k, i + 1, cur[i := t.node], if t.state != Running then complete + {i} else complete,
                       found || t.state == target, target, dt, env, t.board);
        if r.None? then None
        else
          SweepTicked(cur, i, complete, found, target, t.node, t.state, r.value);
          r
  }

  /**
   * What a sweep from position `i` over `cur` leaves in `s`: nothing
   * before `i` or already completed changes; every other child ended its
   * tick and is completed exactly when it did not return `Running`; and a
   * child returning `target` is remembered in `found`.
   */
  predicate SweptFrom(cur: seq<Node>, i: nat, complete: set<nat>, found: bool, target: NodeState, s: Swept) {
    && |s.children| == |cur| && complete <= s.complete
    && (forall j :: 0 <= j < |cur| && (j < i || j in complete) ==> s.children[j] == cur[j])
    && (forall j :: i <= j < |cur| && j !in complete ==>
          && Ended(s.children[j], s.children[j].life.state)
          && (j in s.complete <==> s.children[j].life.state != Running))
    && (forall j :: j in s.complete ==> j in complete || i <= j < |cur|)
    && (s.found <==> found || exists j :: i <= j < |cur| && j !in complete && s.children[j].life.state == target)
  }

  lemma SweepSkip(cur: seq<Node>, i: nat, complete: set<nat>, found: bool, target: NodeState, s: Swept)
    requires i < |cur| && i in complete
    requires SweptFrom(cur, i + 1, complete, found, target, s)
    ensures SweptFrom(cur, i, complete, found, target, s)
  {
  }

  lemma SweepTicked(cur: seq<Node>, i: nat, complete: set<nat>, found: bool, target: NodeState,
                    x: Node, st: NodeState, s: Swept)
    requires i < |cur| && i !in complete && Ended(x, st)
    requires SweptFrom(cur[i := x], i + 1, if st != Running then complete + {i} else complete,
                       found || st == target, target, s)
    ensures SweptFrom(cur, i, complete, found, target, s)
  {
    assert s.children[i] == x;
    assert (exists j :: i <= j < |cur| && j !in complete && s.children[j].life.state == target) <==>
      (st == target || exists j :: i + 1 <= j < |cur| && j !in complete && s.children[j].life.state == target);
  }

  /** Every child position is in the completed set. */
  predicate AllComplete(complete: set<nat>, count: nat) {
    forall j :: 0 <= j < count ==> j in complete
  }

  /** `Abort` for the children whose position is in `s` (when `inside`) or outside it. */
  function AbortWhere(cur: seq<Node>, s: set<nat>, inside: bool, env: Env): (r: seq<Node>)
    ensures |r| == |cur|
    ensures forall j :: 0 <= j < |cur| ==> r[j] == if (j in s) == inside then Abort(cur[j], env) else cur[j]
  {
    seq(|cur|, j requires 0 <= j < |cur| => if (j in s) == inside then Abort(cur[j], env) else cur[j])
  }

  /** A completed child is stopped: no longer started. */
  predicate CompletedStopped(cs: seq<Node>, complete: set<nat>) {
    forall j :: 0 <= j < |cs| && j in complete ==> !cs[j].life.started
  }

  /**
   * What a parallel node's tick promises about its outcome `t`: only the
   * children and the remembered completions change, and the completions
   * only grow; the deciding result (`Failure` for ParallelSequence,
   * `Success` for ParallelSelector) comes exactly when one was found, the
   * other terminal result exactly when none was and every child completed.
   * When the running children are the ones aborted, a remembered completed
   * child is left as it was, completed children stay stopped, and once the
   * node ends every child that was not already complete is quiescent. When
   * the completed children are the ones aborted, the abort finds them
   * stopped and changes nothing: every child not completed is still
   * running, even after the node ended.
   */
  predicate ParallelOutcome(n: Node, t: Ticked, abortCompleted: bool)
    requires n.kind.ParallelSequence? || n.kind.ParallelSelector?
  {
    var target := if n.kind.ParallelSequence? then Failure else Success;
    var cs := ChildrenOf(t.node.kind);
    && Rechildren(n.kind, t.node.kind) && SameHeader(t.node, n)
    && t.node.life == n.life
    && n.mem.complete <= t.node.mem.complete
    && (t.state == target <==> t.node.mem.found)
    && (t.state == (if target == Failure then Success else Failure) <==>
          !t.node.mem.found && AllComplete(t.node.mem.complete, |n.kind.children|))
    && (!abortCompleted ==>
          && (forall j :: 0 <= j < |cs| && j in n.mem.complete ==> cs[j] == n.kind.children[j])
          && (CompletedStopped(n.kind.children, n.mem.complete) ==> CompletedStopped(cs, t.node.mem.complete))
          && (t.state != Running ==> forall j :: 0 <= j < |cs| && j !in n.mem.complete ==> Quiescent(cs[j])))
    && (abortCompleted ==>
          && (forall j :: 0 <= j < |cs| && j !in t.node.mem.complete ==> Ended(cs[j], Running))
          && (CompletedStopped(n.kind.children, n.mem.complete) ==>
                && CompletedStopped(cs, t.node.mem.complete)
                && (forall j :: 0 <= j < |cs| && j in n.mem.complete ==> cs[j] == n.kind.children[j])))
  }

  /**
   * `OnTick` of ParallelSequenceNode and ParallelSelectorNode. Once a child
   * ends with the deciding result the node returns it and aborts the
   * children it names: as written, the completed ones (`abortCompleted`);
   * as evidently intended, the ones still running. Otherwise the node holds
   * the other terminal result when every child completed, and is `Running`
   * before that.
   */
  function ParallelTick(n: Node, dt: real, env: Env, bb: BB.Board, abortCompleted: bool): (r: Option<Ticked>)
    requires n.kind.ParallelSequence? || n.kind.ParallelSelector?
    ensures r.Some? ==> ParallelOutcome(n, r.value, abortCompleted)
    decreases n.kind, 1, 0
  {
    var k := n.kind;
    var target := if k.ParallelSequence? then Failure else Success;
    var o := Sweep(k, 0, k.children, n.mem.complete, n.mem.found, target, dt, env, bb);
    if o.None? then None
    else Some(ParallelResult(n, o.value, env, abortCompleted))
  }

  /** What a sweep of the whole of parallel node `n` over its children, with its remembered completions, leaves in `s`. */
  predicate SweptAll(n: Node, s: Swept)
    requires n.kind.ParallelSequence? || n.kind.ParallelSelector?
  {
    SweptFrom(n.kind.children, 0, n.mem.complete, n.mem.found, if n.kind.ParallelSequence? then Failure else Success, s)
  }

  /**
   * The end of a parallel node's tick, given its sweep `s`: the deciding
   * result aborts the children named by `abortCompleted`; otherwise all
   * completed gives the other terminal result, and anything less `Running`.
   */
  function ParallelResult(n: Node, s: Swept, env: Env, abortCompleted: bool): (r: Ticked)
    requires n.kind.ParallelSequence? || n.kind.ParallelSelector?
    requires SweptAll(n, s)
    ensures ParallelOutcome(n, r, abortCompleted)
  {
    var k := n.kind;
    var target := if k.ParallelSequence? then Failure else Success;
    var mem := n.mem.(complete := s.complete, found := s.found);
    if s.found then
      var cs := AbortWhere(s.children, s.complete, abortCompleted, env);
      ParallelFoundOutcome(n, s, env, abortCompleted);
      Ticked(target, n.(kind := WithChildren(k, cs), mem := mem), s.board)
    else
      var st := if AllComplete(s.complete, |k.children|) then (if target == Failure then Success else Failure) else Running;
      ParallelPendingOutcome(n, s, st, abortCompleted);
      Ticked(st, n.(kind := WithChildren(k, s.children), mem := mem), s.board)
  }

  lemma ParallelFoundOutcome(n: Node, s: Swept, env: Env, abortCompleted: bool)
    requires n.kind.ParallelSequence? || n.kind.ParallelSelector?
    requires SweptAll(n, s) && s.found
    ensures ParallelOutcome(n, Ticked(if n.kind.ParallelSequence? then Failure else Success,
      n.(kind := WithChildren(n.kind, AbortWhere(s.children, s.complete, abortCompleted, env)),
         mem := n.mem.(complete := s.complete, found := s.found)), s.board), abortCompleted)
  {
  }

  lemma ParallelPendingOutcome(n: Node, s: Swept, st: NodeState, abortCompleted: bool)
    requires n.kind.ParallelSequence? || n.kind.ParallelSelector?
    requires SweptAll(n, s) && !s.found
    requires st == if AllComplete(s.complete, |n.kind.children|) then (if n.kind.ParallelSequence? then Success else Failure) else Running
    ensures ParallelOutcome(n, Ticked(st, n.(kind := WithChildren(n.kind, s.children),
      mem := n.mem.(complete := s.complete, found := s.found)), s.board), abortCompleted)
  {
  }

  // ---- Decorators ----

  /** ReverseNode: `Running` passes, `Success` becomes `Failure`, `Failure` becomes `Success`. */
  function Invert(s: NodeState): (r: NodeState)
    ensures r == Running <==> s == Running
    ensures s != Running ==> r != s
  {
    match s
    case Running => Running
    case Success => Failure
    case Failure => Success
  }

  /** `ReverseNode.OnTick`: ticks the child once and inverts a terminal result; no child raises. */
  function ReverseTick(n: Node, dt: real, env: Env, bb: BB.Board): (r: Option<Ticked>)
    requires n.kind.Reverse?
    ensures n.kind.child.None? ==> r.None?
    ensures r.Some? ==> r.value.node.kind.Reverse? && r.value.node.kind.child.Some? && SameHeader(r.value.node, n)
    ensures r.Some? ==> r.value.node.life == n.life && r.value.node.mem == n.mem
    ensures r.Some? ==> var c := r.value.node.kind.child.value;
      c.life.state != r.value.state || c.life.state == Running
    ensures r.Some? ==> r.value.state == Invert(r.value.node.kind.child.value.life.state)
    decreases n.kind, 1, 0
  {
    match n.kind.child
    case None => None
    case Some(c) =>
      var o := Tick(c, dt, env, bb);
      if o.None? then None
      else Some(Ticked(Invert(o.value.state), n.(kind := Reverse(Some(o.value.node))), o.value.board))
  }

  /**
   * `TimeBlockNode.OnTick`: the delta time is added to the accumulated
   * time; once it reaches the working duration the node succeeds without
   * ticking the child, before that it ticks the child and is `Running`
   * whatever the child returned.
   */
  function TimeBlockTick(n: Node, dt: real, env: Env, bb: BB.Board): (r: Option<Ticked>)
    requires n.kind.TimeBlock?
    ensures r.Some? ==> r.value.node.kind.TimeBlock? && SameHeader(r.value.node, n) && r.value.node.life == n.life
    ensures r.Some? ==> r.value.node.mem == n.mem.(time := n.mem.time + dt)
    ensures n.mem.time + dt >= n.mem.working ==> r == Some(Ticked(Success, n.(mem := n.mem.(time := n.mem.time + dt)), bb))
    ensures n.mem.time + dt < n.mem.working ==> (r.Some? <==> n.kind.child.Some? && Tick(n.kind.child.value, dt, env, bb).Some?)
    ensures n.mem.time + dt < n.mem.working && r.Some? ==> r.value.state == Running
    decreases n.kind, 1, 0
  {
    var m := n.mem.(time := n.mem.time + dt);
    if m.time >= m.working then Some(Ticked(Success, n.(mem := m), bb))
    else match n.kind.child
      case None => None
      case Some(c) =>
        var o := Tick(c, dt, env, bb);
        if o.None? then None
        else Some(Ticked(Running, n.(kind := TimeBlock(Some(o.value.node), n.kind.duration, n.kind.recordTimeAfterAbort), mem := m), o.value.board))
  }

  /**
   * `TimeDelayNode.OnTick`: the delta time is added to the accumulated
   * time; below the working duration the node is `Running` and the child is
   * not ticked, after it the node returns the child's result.
   */
  function TimeDelayTick(n: Node, dt: real, env: Env, bb: BB.Board): (r: Option<Ticked>)
    requires n.kind.TimeDelay?
    ensures r.Some? ==> r.value.node.kind.TimeDelay? && SameHeader(r.value.node, n) && r.value.node.life == n.life
    ensures r.Some? ==> r.value.node.mem == n.mem.(time := n.mem.time + dt)
    ensures n.mem.time + dt < n.mem.working ==> r == Some(Ticked(Running, n.(mem := n.mem.(time := n.mem.time + dt)), bb))
    ensures n.mem.time + dt >= n.mem.working ==>
      match n.kind.child
      case None => r.None?
      case Some(c) => var o := Tick(c, dt, env, bb);
        (r.Some? <==> o.Some?) && (r.Some? ==> r.value.state == o.value.state && r.value.board == o.value.board)
    decreases n.kind, 1, 0
  {
    var m := n.mem.(time := n.mem.time + dt);
    if m.time < m.working then Some(Ticked(Running, n.(mem := m), bb))
    else match n.kind.child
      case None => None
      case Some(c) =>
        var o := Tick(c, dt, env, bb);
        if o.None? then None
        else Some(Ticked(o.value.state, n.(kind := TimeDelay(Some(o.value.node), n.kind.delayTime, n.kind.recordTimeAfterAbort), mem := m), o.value.board))
  }

  /**
   * `FixedDelayNode.OnTick`, on the host clock: before the deadline the
   * node is `Running` and the child is not ticked, after it the node returns
   * the child's result.
   */
  function FixedDelayTick(n: Node, dt: real, env: Env, bb: BB.Board): (r: Option<Ticked>)
    requires n.kind.FixedDelay?
    ensures r.Some? ==> r.value.node.kind.FixedDelay? && SameHeader(r.value.node, n)
    ensures r.Some? ==> r.value.node.life == n.life && r.value.node.mem == n.mem
    ensures env.now < Deadline(n.mem) ==> r == Some(Ticked(Running, n, bb))
    ensures env.now >= Deadline(n.mem) ==>
      match n.kind.child
      case None => r.None?
      case Some(c) => var o := Tick(c, dt, env, bb);
        (r.Some? <==> o.Some?) && (r.Some? ==> r.value.state == o.value.state && r.value.board == o.value.board)
    decreases n.kind, 1, 0
  {
    if env.now - n.mem.startTime < n.mem.working then Some(Ticked(Running, n, bb))
    else match n.kind.child
      case None => None
      case Some(c) =>
        var o := Tick(c, dt, env, bb);
        if o.None? then None
        else Some(Ticked(o.value.state, n.(kind := FixedDelay(Some(o.value.node), n.kind.delayTime, n.kind.recordTimeAfterAbort)), o.value.board))
  }

  /**
   * `FixedBlockNode.OnTick`, on the working duration: before the deadline
   * the child (if any) is ticked and the node is `Running`; after it the
   * child is aborted and the node succeeds.
   */
  function FixedBlockTick(n: Node, dt: real, env: Env, bb: BB.Board): (r: Option<Ticked>)
    requires n.kind.FixedBlock?
    ensures r.Some? ==> r.value.node.kind.FixedBlock? && SameHeader(r.value.node, n)
    ensures r.Some? ==> r.value.node.life == n.life && r.value.node.mem == n.mem
    ensures env.now < Deadline(n.mem) ==> (r.Some? ==> r.value.state == Running)
    ensures env.now < Deadline(n.mem) && n.kind.child.None? ==> r == Some(Ticked(Running, n, bb))
    ensures env.now >= Deadline(n.mem) ==>
      r == Some(Ticked(Success, n.(kind := FixedBlock(AbortChild(n.kind.child, env), n.kind.duration, n.kind.recordTimeAfterAbort)), bb))
    decreases n.kind, 1, 0
  {
    if env.now - n.mem.startTime < n.mem.working then
      match n.kind.child
      case None => Some(Ticked(Running, n, bb))
      case Some(c) =>
        var o := Tick(c, dt, env, bb);
        if o.None? then None
        else Some(Ticked(Running, n.(kind := FixedBlock(Some(o.value.node), n.kind.duration, n.kind.recordTimeAfterAbort)), o.value.board))
    else Some(Ticked(Success, n.(kind := FixedBlock(AbortChild(n.kind.child, env), n.kind.duration, n.kind.recordTimeAfterAbort)), bb))
  }

  // ---- ChildTree ----

  /**
   * `ChildTreeNode.OnTick`: the parent blackboard is pushed into the
   * sub-tree's, the sub-tree's root is ticked on the sub-tree's own clock
   * (which nothing advances), the sub-tree's blackboard is pulled back, and
   * the root's result is the node's.
   */
  function ChildTreeTick(n: Node, dt: real, env: Env, bb: BB.Board): (r: Option<Ticked>)
    requires n.kind.ChildTree?
    ensures var o := Tick(n.kind.sub, dt, env.(treeTime := 0.0), BB.Synchronize(bb, n.kind.subBoard));
      && (r.Some? <==> o.Some?)
      && (r.Some? ==>
            && r.value.state == o.value.state
            && r.value.node.kind == ChildTree(o.value.node, o.value.board)
            && r.value.board == BB.Synchronize(o.value.board, bb))
    ensures r.Some? ==> SameHeader(r.value.node, n) && r.value.node.life == n.life && r.value.node.mem == n.mem
    decreases n.kind, 1, 0
  {
    var pushed := BB.Synchronize(bb, n.kind.subBoard);
    var o := Tick(n.kind.sub, dt, env.(treeTime := 0.0), pushed);
    if o.None? then None
    else Some(Ticked(o.value.state, n.(kind := ChildTree(o.value.node, o.value.board)), BB.Synchronize(o.value.board, bb)))
  }

  /**
   * What the pull-back does to the parent's blackboard: a parameter that is
   * the first of its key and type takes the value of the last sub-board
   * parameter with that key and type, if there is one; every other parent
   * parameter keeps its value.
   */
  lemma ChildTreePullsBack(n: Node, dt: real, env: Env, bb: BB.Board, j: nat)
    requires n.kind.ChildTree? && j < |bb|
    requires ChildTreeTick(n, dt, env, bb).Some?
    ensures var r := ChildTreeTick(n, dt, env, bb).value;
      var m := BB.LastMatch(r.node.kind.subBoard, bb[j].key, bb[j].vtype);
      && BB.SameLayout(bb, r.board)
      && (BB.FindKeyType(bb, bb[j].key, bb[j].vtype) == j && m.Some? ==> r.board[j] == BB.WriteValue(bb[j], m.value))
      && (BB.FindKeyType(bb, bb[j].key, bb[j].vtype) != j || m.None? ==> r.board[j] == bb[j])
  {
    var r := ChildTreeTick(n, dt, env, bb).value;
    BB.SynchronizeIsApplyAll(r.node.kind.subBoard, bb);
    BB.ApplyAllLastWins(r.node.kind.subBoard, bb, j);
  }

  /**
   * A sub-tree whose tick writes nothing to its blackboard hands the parent
   * its blackboard back unchanged, when both boards have unique keys.
   */
  lemma ChildTreeNoWriteKeepsBoard(n: Node, dt: real, env: Env, bb: BB.Board)
    requires n.kind.ChildTree? && BB.UniqueKeys(bb) && BB.UniqueKeys(n.kind.subBoard)
    requires ChildTreeTick(n, dt, env, bb).Some?
    requires ChildTreeTick(n, dt, env, bb).value.node.kind.subBoard == BB.Synchronize(bb, n.kind.subBoard)
    ensures ChildTreeTick(n, dt, env, bb).value.board == bb
  {
    BB.SynchronizeBackRestores(bb, n.kind.subBoard);
  }

  // ---- Properties ----

  /** The tick that resumes or starts a node does not see the delta time. */
  lemma StartOrResumeIgnoresDelta(n: Node, dt: real, env: Env, bb: BB.Board)
    requires n.life.aborted || !n.life.started
    ensures Tick(n, dt, env, bb) == Tick(n, 0.0, env, bb)
  {
  }

  /**
   * Without `stopWhenAbort` an abort leaves a running node started, and the
   * next tick carries on where it was (no `OnStart`) with a delta time of 0;
   * for every node class but the time gates, `OnResume` changes nothing.
   */
  lemma AbortThenTickResumes(n: Node, dt: real, env: Env, bb: BB.Board)
    requires n.life.started && !n.life.aborted && !n.stopWhenAbort && !IsTimeGate(n.kind)
    ensures Abort(n, env).life.started && Abort(n, env).life.aborted
    ensures IsOrdered(n.kind) ==> Abort(n, env).mem == n.mem
    ensures var a := Abort(n, env);
      Tick(a, dt, env, bb) == Tick(a.(life := a.life.(aborted := false)), 0.0, env, bb)
  {
    var a := Abort(n, env);
    assert OnResume(a.(life := a.life.(aborted := false)), env) == a.(life := a.life.(aborted := false));
  }

  /**
   * With `stopWhenAbort` an abort stops the node with `Failure`, and the
   * next tick starts it afresh: what an ordered composite remembered no
   * longer matters.
   */
  lemma AbortWithStopRestarts(n: Node, dt: real, env: Env, bb: BB.Board)
    requires IsOrdered(n.kind) && n.life.started && !n.life.aborted && n.stopWhenAbort
    ensures Abort(n, env).life == Life(false, false, Failure)
    ensures var a := Abort(n, env);
      Tick(a, dt, env, bb) == Tick(a.(mem := a.mem.(lastTickIndex := -1)), dt, env, bb)
  {
    var a := Abort(n, env);
    var b := a.(mem := a.mem.(lastTickIndex := -1));
    assert OnStart(a.(life := a.life.(started := true)), env) == OnStart(b.(life := b.life.(started := true)), env);
  }

  /**
   * A parallel node whose completed children are stopped ends (with
   * `Success` or `Failure`) with no child still running unaborted, and its
   * completed children stay stopped across every tick.
   */
  lemma ParallelEndsQuiet(n: Node, dt: real, env: Env, bb: BB.Board)
    requires n.kind.ParallelSequence? || n.kind.ParallelSelector?
    requires CompletedStopped(n.kind.children, n.mem.complete)
    ensures var r := ParallelTick(n, dt, env, bb, false);
      r.Some? ==> CompletedStopped(ChildrenOf(r.value.node.kind), r.value.node.mem.complete)
    ensures var r := ParallelTick(n, dt, env, bb, false);
      r.Some? && r.value.state != Running ==>
        forall j :: 0 <= j < |ChildrenOf(r.value.node.kind)| ==> Quiescent(ChildrenOf(r.value.node.kind)[j])
  {
    var r := ParallelTick(n, dt, env, bb, false);
    if r.Some? && r.value.state != Running {
      var cs := ChildrenOf(r.value.node.kind);
      forall j | 0 <= j < |cs| ensures Quiescent(cs[j]) {
        if j in n.mem.complete {
          assert j in r.value.node.mem.complete;
        }
      }
    }
  }

  /** A custom leaf that has not started; what it returns comes from the environment. */
  function FreshLeaf(guid: string): Node {
    Node(guid, 1, true, Life(false, false, Running), Custom, NoMem)
  }

  /** The first tick of a fresh leaf: it returns what the environment says and keeps running only on `Running`. */
  lemma FreshLeafTick(guid: string, env: Env)
    ensures Tick(FreshLeaf(guid), 0.0, env, []) ==
      var st := env.leaf(guid);
      Some(Ticked(st, FreshLeaf(guid).(life := if st == Running then Life(true, false, Running) else Life(false, false, st)), []))
  {
    var a := FreshLeaf(guid);
    assert OnTick(OnStart(a.(life := a.life.(started := true)), env), 0.0, env, []) ==
      Some(Ticked(env.leaf(guid), a.(life := a.life.(started := true)), []));
  }

  /**
   * A started ParallelSequence over a child that fails and a child that
   * runs: as written it returns `Failure` and aborts only the failed child,
   * which is already stopped, so the other child is left started and not
   * aborted under a node that has stopped.
   */
  lemma ParallelAsWrittenLeavesChildRunning()
    ensures
      var env := Env(0.0, 0.0, g => if g == "a" then Failure else Running);
      var p := Node("p", 1, true, Life(true, false, Running), ParallelSequence([FreshLeaf("a"), FreshLeaf("b")]), NoMem);
      var r := ParallelTick(p, 0.0, env, [], true);
      && r.Some? && r.value.state == Failure
      && !Quiescent(ChildrenOf(r.value.node.kind)[1])
  {
    var env := Env(0.0, 0.0, g => if g == "a" then Failure else Running);
    ParallelAbortsTheCompleted("a", "b", env);
  }

  /** The counterexample for any two leaves, the first failing and the second running. */
  lemma ParallelAbortsTheCompleted(ga: string, gb: string, env: Env)
    requires env.leaf(ga) == Failure && env.leaf(gb) == Running
    ensures
      var p := Node("p", 1, true, Life(true, false, Running), ParallelSequence([FreshLeaf(ga), FreshLeaf(gb)]), NoMem);
      var r := ParallelTick(p, 0.0, env, [], true);
      && r.Some? && r.value.state == Failure
      && !Quiescent(ChildrenOf(r.value.node.kind)[1])
  {
    var p := Node("p", 1, true, Life(true, false, Running), ParallelSequence([FreshLeaf(ga), FreshLeaf(gb)]), NoMem);
    var na := FreshLeaf(ga).(life := Life(false, false, Failure));
    var nb := FreshLeaf(gb).(life := Life(true, false, Running));
    var t := ParallelResult(p, Swept([na, nb], {0}, true, []), env, true);
    assert ParallelTick(p, 0.0, env, [], true) == Some(t) by {
      ExampleSweep(ga, gb, env);
    }
    assert t.state == Failure && ChildrenOf(t.node.kind)[1] == nb by {
      assert ChildrenOf(t.node.kind) == AbortWhere([na, nb], {0}, true, env);
    }
  }

  /** The sweep of the example: the first child fails and completes, the second keeps running. */
  lemma ExampleSweep(ga: string, gb: string, env: Env)
    requires env.leaf(ga) == Failure && env.leaf(gb) == Running
    ensures Sweep(ParallelSequence([FreshLeaf(ga), FreshLeaf(gb)]), 0, [FreshLeaf(ga), FreshLeaf(gb)], {}, false, Failure, 0.0, env, [])
      == Some(Swept([FreshLeaf(ga).(life := Life(false, false, Failure)), FreshLeaf(gb).(life := Life(true, false, Running))], {0}, true, []))
  {
    var a := FreshLeaf(ga);
    var b := FreshLeaf(gb);
    FreshLeafTick(ga, env);
    FreshLeafTick(gb, env);
    var na := a.(life := Life(false, false, Failure));
    var nb := b.(life := Life(true, false, Running));
    var k := ParallelSequence([a, b]);
    var s2 := Sweep(k, 2, [na, nb], {0}, true, Failure, 0.0, env, []);
    assert s2 == Some(Swept([na, nb], {0}, true, []));
    assert k.children[1] == b && [na, b][1 := nb] == [na, nb];
    assert Sweep(k, 1, [na, b], {0}, true, Failure, 0.0, env, []) == s2;
    assert k.children[0] == a && [a, b][0 := na] == [na, b] && {} + {0} == {0};
  }

  /**
   * A time gate recording time across an abort counts the tree time spent
   * aborted; one that does not record it ignores that time.
   */
  lemma TimeGateAbortResume(n: Node, env: Env, a: real, b: real)
    requires n.kind.TimeBlock? || n.kind.TimeDelay?
    ensures var resumed := OnResume(OnAbort(n, env.(treeTime := a)), env.(treeTime := b));
      resumed.mem.time == if n.kind.recordTimeAfterAbort then n.mem.time + (b - a) else n.mem.time
  {
  }
}
