/**
 * A behaviour-tree asset of the editor engine: a map from GUID to node data whose
 * `childrenGuids` and `parentGuid` fields link the nodes, plus the root's GUID.
 * Node data are values here; the source mutates them in place, which is the
 * same as long as every node is stored under its own GUID only.
 */
module EditorTreeData {
  import opened Wrappers
  import opened Seqs
  import ND = EditorNodeData

  type Nodes = map<string, ND.NodeData>

  /** The asset. The creation and modification time stamps are not modelled. */
  datatype TreeData = TreeData(treeName: string, description: string, rootNodeGuid: string, allNodes: Nodes)

  /** A GUID that `GetNodeData` resolves: non-empty and present. */
  predicate Known(s: Nodes, g: string) {
    g != "" && g in s
  }

  /** `GetNodeData`: `null` for an empty or unknown GUID. */
  function GetNodeData(s: Nodes, g: string): (r: Option<ND.NodeData>)
    ensures r.Some? <==> Known(s, g)
    ensures r.Some? ==> r.value == s[g]
  {
    if g == "" then None else if g in s then Some(s[g]) else None
  }

  // ---------------------------------------------------------------------------
  // Paths through the child links, the reference for removal and cycle checks.

  /** A walk along child links that continues only through nodes `GetNodeData` resolves; its last GUID may be anything. */
  ghost predicate Path(s: Nodes, p: seq<string>) {
    && |p| >= 1
    && forall i :: 0 <= i < |p| - 1 ==> Known(s, p[i]) && p[i + 1] in s[p[i]].childrenGuids
  }

  ghost predicate Reachable(s: Nodes, g: string, x: string) {
    exists p :: Path(s, p) && p[0] == g && p[|p| - 1] == x
  }

  /** A walk from `g` whose last GUID already occurred earlier on it. */
  ghost predicate CycleFrom(s: Nodes, g: string) {
    exists p :: Path(s, p) && p[0] == g && p[|p| - 1] in p[..|p| - 1]
  }

  lemma ReachableSelf(s: Nodes, g: string)
    ensures Reachable(s, g, g)
  {
    assert Path(s, [g]);
  }

  /** A link from a resolvable node extends every walk that reaches it. */
  lemma {:induction false} ReachableStep(s: Nodes, g: string, x: string, y: string)
    requires Reachable(s, g, x) && Known(s, x) && y in s[x].childrenGuids
    ensures Reachable(s, g, y)
  {
    var p :| Path(s, p) && p[0] == g && p[|p| - 1] == x;
    assert Path(s, p + [y]);
    assert (p + [y])[0] == g;
  }

  /** A walk from a child, prefixed with its parent. */
  lemma {:induction false} ReachablePrepend(s: Nodes, g: string, c: string, x: string)
    requires Known(s, g) && c in s[g].childrenGuids && Reachable(s, c, x)
    ensures Reachable(s, g, x)
  {
    var p :| Path(s, p) && p[0] == c && p[|p| - 1] == x;
    var q := [g] + p;
    assert forall i :: 1 <= i < |q| ==> q[i] == p[i - 1];
    assert Path(s, q);
  }

  // ---------------------------------------------------------------------------
  // Removal.

  /** `r` arises from `s` by dropping nodes and child-list entries, nothing else. */
  ghost predicate Shrunk(s: Nodes, r: Nodes) {
    forall x :: x in r ==>
      && x in s
      && r[x].(childrenGuids := s[x].childrenGuids) == s[x]
      && forall i :: 0 <= i < |r[x].childrenGuids| ==> r[x].childrenGuids[i] in s[x].childrenGuids
  }

  /** Every child entry that disappeared from a surviving node's list belongs to a removed node. */
  ghost predicate DroppedRemoved(s: Nodes, r: Nodes) {
    forall x, i :: x in r && x in s && 0 <= i < |s[x].childrenGuids| && s[x].childrenGuids[i] !in r[x].childrenGuids ==>
      s[x].childrenGuids[i] !in r
  }

  /** Every removed node's non-empty children are removed too. */
  ghost predicate Closed(s: Nodes, r: Nodes) {
    forall x, i :: x in s && x !in r && 0 <= i < |s[x].childrenGuids| && s[x].childrenGuids[i] != "" ==>
      s[x].childrenGuids[i] !in r
  }

  /** The three facts removal keeps, plus: the empty GUID is never removed. */
  ghost predicate RemovalStep(s: Nodes, r: Nodes) {
    Shrunk(s, r) && DroppedRemoved(s, r) && Closed(s, r) && ("" in s ==> "" in r)
  }

  lemma RemovalStepTrans(s: Nodes, s1: Nodes, r: Nodes)
    requires RemovalStep(s, s1) && RemovalStep(s1, r)
    ensures RemovalStep(s, r)
  {
    forall x, i | x in r && x in s && 0 <= i < |s[x].childrenGuids| && s[x].childrenGuids[i] !in r[x].childrenGuids
      ensures s[x].childrenGuids[i] !in r
    {
      var y := s[x].childrenGuids[i];
      if y in s1[x].childrenGuids {
        var j := IndexOf(s1[x].childrenGuids, y);
      }
    }
    forall x, i | x in s && x !in r && 0 <= i < |s[x].childrenGuids| && s[x].childrenGuids[i] != ""
      ensures s[x].childrenGuids[i] !in r
    {
      var y := s[x].childrenGuids[i];
      if x in s1 && y in s1[x].childrenGuids {
        var j := IndexOf(s1[x].childrenGuids, y);
      }
    }
  }

  /** `s` with the child list of `x` replaced. */
  function WithChildren(s: Nodes, x: string, l: seq<string>): (r: Nodes)
    requires x in s
    ensures r.Keys == s.Keys && r[x] == s[x].(childrenGuids := l)
    ensures forall y :: y in s && y != x ==> r[y] == s[y]
  {
    s[x := s[x].(childrenGuids := l)]
  }

  /** `s` with the parent GUID of `x` replaced. */
  function WithParent(s: Nodes, x: string, p: string): (r: Nodes)
    requires x in s
    ensures r.Keys == s.Keys && r[x] == s[x].(parentGuid := p)
    ensures forall y :: y in s && y != x ==> r[y] == s[y]
  {
    s[x := s[x].(parentGuid := p)]
  }

  /** Takes `g` out of the child list of its parent `p`, when `p` resolves (`parentData?.childrenGuids.Remove`). */
  function Detach(s: Nodes, p: string, g: string): (r: Nodes)
    ensures r.Keys == s.Keys
    ensures Known(s, p) ==> r == WithChildren(s, p, RemoveFirst(s[p].childrenGuids, g))
    ensures !Known(s, p) ==> r == s
  {
    if Known(s, p) then WithChildren(s, p, RemoveFirst(s[p].childrenGuids, g)) else s
  }

  lemma DetachShrinks(s: Nodes, p: string, g: string)
    ensures Shrunk(s, Detach(s, p, g))
  {
    if Known(s, p) { RemoveFirstMembers(s[p].childrenGuids, g); }
  }

  /**
   * `RemoveNode`: detaches `g` from its parent, removes each child (a snapshot
   * of its list) recursively, then removes `g`. The source recursion never ends
   * when the links form a cycle; `fuel` bounds it and `None` stands for that.
   */
  function RemoveNode(s: Nodes, g: string, fuel: nat): (r: Option<Nodes>)
    ensures !Known(s, g) ==> r == Some(s)
    ensures r.Some? ==> RemovalStep(s, r.value) && (g != "" ==> g !in r.value)
    decreases fuel, 0
  {
    if !Known(s, g) then Some(s)
    else if fuel == 0 then None
    else
      var s1 := Detach(s, s[g].parentGuid, g);
      match RemoveChildren(s1, s1[g].childrenGuids, fuel - 1)
      case None => None
      case Some(s2) =>
        RemoveNodeStep(s, g, s2);
        Some(s2 - {g})
  }

  /** The only entry `Detach` loses is `g`. */
  lemma DetachLoses(s: Nodes, p: string, g: string, x: string, y: string)
    requires x in s && y in s[x].childrenGuids && y !in Detach(s, p, g)[x].childrenGuids
    ensures y == g
  {
    if x == p && Known(s, p) {
      RemoveFirstMembers(s[p].childrenGuids, g);
      var i := IndexOf(s[p].childrenGuids, y);
    }
  }

  /** The last step of `RemoveNode`: after the children's removal, dropping `g` itself restores all removal facts. */
  lemma RemoveNodeStep(s: Nodes, g: string, s2: Nodes)
    requires Known(s, g)
    requires RemovalStep(Detach(s, s[g].parentGuid, g), s2)
    requires var s1 := Detach(s, s[g].parentGuid, g);
      forall i :: 0 <= i < |s1[g].childrenGuids| && s1[g].childrenGuids[i] != "" ==> s1[g].childrenGuids[i] !in s2
    ensures RemovalStep(s, s2 - {g})
  {
    var p := s[g].parentGuid;
    var s1 := Detach(s, p, g);
    DetachShrinks(s, p, g);
    StepShrunk(s, s1, s2, g);
    StepDropped(s, p, g, s2);
    StepClosed(s, p, g, s2);
  }

  lemma StepShrunk(s: Nodes, s1: Nodes, s2: Nodes, g: string)
    requires Shrunk(s, s1) && Shrunk(s1, s2)
    ensures Shrunk(s, s2 - {g})
  {
    var r := s2 - {g};
    forall x | x in r
      ensures x in s && r[x].(childrenGuids := s[x].childrenGuids) == s[x]
      ensures forall i :: 0 <= i < |r[x].childrenGuids| ==> r[x].childrenGuids[i] in s[x].childrenGuids
    {
      assert r[x] == s2[x];
      forall i | 0 <= i < |r[x].childrenGuids| ensures r[x].childrenGuids[i] in s[x].childrenGuids {
        var y := r[x].childrenGuids[i];
        assert y in s1[x].childrenGuids;
        var j := IndexOf(s1[x].childrenGuids, y);
      }
    }
  }

  lemma StepDropped(s: Nodes, p: string, g: string, s2: Nodes)
    requires Known(s, g) && DroppedRemoved(Detach(s, p, g), s2)
    ensures DroppedRemoved(s, s2 - {g})
  {
    var s1 := Detach(s, p, g);
    var r := s2 - {g};
    forall x, i | x in r && x in s && 0 <= i < |s[x].childrenGuids| && s[x].childrenGuids[i] !in r[x].childrenGuids
      ensures s[x].childrenGuids[i] !in r
    {
      var y := s[x].childrenGuids[i];
      assert r[x] == s2[x];
      if y in s1[x].childrenGuids {
        var j := IndexOf(s1[x].childrenGuids, y);
      } else {
        DetachLoses(s, p, g, x, y);
      }
    }
  }

  lemma StepClosed(s: Nodes, p: string, g: string, s2: Nodes)
    requires Known(s, g) && Closed(Detach(s, p, g), s2)
    requires var s1 := Detach(s, p, g);
      forall i :: 0 <= i < |s1[g].childrenGuids| && s1[g].childrenGuids[i] != "" ==> s1[g].childrenGuids[i] !in s2
    ensures Closed(s, s2 - {g})
  {
    var s1 := Detach(s, p, g);
    var r := s2 - {g};
    forall x, i | x in s && x !in r && 0 <= i < |s[x].childrenGuids| && s[x].childrenGuids[i] != ""
      ensures s[x].childrenGuids[i] !in r
    {
      var y := s[x].childrenGuids[i];
      if y in s1[x].childrenGuids {
        var j := IndexOf(s1[x].childrenGuids, y);
      } else {
        DetachLoses(s, p, g, x, y);
      }
    }
  }

  /** Removes each GUID of `cs` in turn. */
  function RemoveChildren(s: Nodes, cs: seq<string>, fuel: nat): (r: Option<Nodes>)
    ensures r.Some? ==> RemovalStep(s, r.value)
    ensures r.Some? ==> forall i :: 0 <= i < |cs| && cs[i] != "" ==> cs[i] !in r.value
    decreases fuel, 1, |cs|
  {
    if |cs| == 0 then Some(s)
    else
      match RemoveNode(s, cs[0], fuel)
      case None => None
      case Some(s1) =>
        match RemoveChildren(s1, cs[1..], fuel)
        case None => None
        case Some(s2) =>
          RemoveChildrenStep(s, s1, s2, cs);
          Some(s2)
  }

  lemma RemoveChildrenStep(s: Nodes, s1: Nodes, s2: Nodes, cs: seq<string>)
    requires |cs| > 0
    requires RemovalStep(s, s1) && (cs[0] != "" ==> cs[0] !in s1)
    requires RemovalStep(s1, s2) && forall i :: 0 <= i < |cs[1..]| && cs[1..][i] != "" ==> cs[1..][i] !in s2
    ensures RemovalStep(s, s2)
    ensures forall i :: 0 <= i < |cs| && cs[i] != "" ==> cs[i] !in s2
  {
    RemovalStepTrans(s, s1, s2);
    assert forall i :: 1 <= i < |cs| ==> cs[i] == cs[1..][i - 1];
  }

  /** Walks in a shrunk map are walks in the original. */
  lemma ReachableShrunk(s: Nodes, s1: Nodes, c: string, x: string)
    requires Shrunk(s, s1) && Reachable(s1, c, x)
    ensures Reachable(s, c, x)
  {
    var p :| Path(s1, p) && p[0] == c && p[|p| - 1] == x;
    forall i | 0 <= i < |p| - 1 ensures Known(s, p[i]) && p[i + 1] in s[p[i]].childrenGuids {
      var k := IndexOf(s1[p[i]].childrenGuids, p[i + 1]);
    }
    assert Path(s, p);
  }

  /** Along any walk from a removed node, every resolvable node is removed as well. */
  lemma {:induction false} ClosedAlongPath(s: Nodes, r: Nodes, p: seq<string>, n: nat)
    requires Closed(s, r) && Path(s, p) && p[0] !in r && n < |p|
    requires p[n] != ""
    ensures p[n] !in r
    decreases n
  {
    if n > 0 {
      assert Known(s, p[n - 1]);
      ClosedAlongPath(s, r, p, n - 1);
      var k := IndexOf(s[p[n - 1]].childrenGuids, p[n]);
    }
  }

  /** `RemoveNode` removes nothing but `g` and nodes reachable from it. */
  lemma {:induction false} RemoveNodeOnlyReachable(s: Nodes, g: string, fuel: nat)
    requires RemoveNode(s, g, fuel).Some?
    ensures forall x :: x in s && x !in RemoveNode(s, g, fuel).value ==> Reachable(s, g, x)
    decreases fuel, 0
  {
    if Known(s, g) {
      var s1 := Detach(s, s[g].parentGuid, g);
      var cs := s1[g].childrenGuids;
      RemoveChildrenOnlyReachable(s1, cs, fuel - 1);
      var s2 := RemoveChildren(s1, cs, fuel - 1).value;
      assert RemoveNode(s, g, fuel).value == s2 - {g};
      RemovedAreReachable(s, g, s2);
    }
  }

  /** What goes with the children of a detached `g`, and `g` itself, is reachable from `g`. */
  lemma RemovedAreReachable(s: Nodes, g: string, s2: Nodes)
    requires Known(s, g)
    requires var s1 := Detach(s, s[g].parentGuid, g);
      forall x :: x in s1 && x !in s2 ==>
        exists i :: 0 <= i < |s1[g].childrenGuids| && Reachable(s1, s1[g].childrenGuids[i], x)
    ensures forall x :: x in s && x !in s2 - {g} ==> Reachable(s, g, x)
  {
    forall x | x in s && x !in s2 - {g} ensures Reachable(s, g, x) {
      if x == g {
        ReachableSelf(s, g);
      } else {
        ReachableViaDetached(s, g, x);
      }
    }
  }

  /** A walk from a child of `g` after `g` is detached is a walk from `g` before. */
  lemma ReachableViaDetached(s: Nodes, g: string, x: string)
    requires Known(s, g)
    requires var s1 := Detach(s, s[g].parentGuid, g);
      g in s1 && exists i :: 0 <= i < |s1[g].childrenGuids| && Reachable(s1, s1[g].childrenGuids[i], x)
    ensures Reachable(s, g, x)
  {
    var s1 := Detach(s, s[g].parentGuid, g);
    var i :| 0 <= i < |s1[g].childrenGuids| && Reachable(s1, s1[g].childrenGuids[i], x);
    var c := s1[g].childrenGuids[i];
    DetachShrinks(s, s[g].parentGuid, g);
    ReachableShrunk(s, s1, c, x);
    assert c in s[g].childrenGuids;
    ReachablePrepend(s, g, c, x);
  }

  lemma {:induction false} RemoveChildrenOnlyReachable(s: Nodes, cs: seq<string>, fuel: nat)
    requires RemoveChildren(s, cs, fuel).Some?
    ensures forall x :: x in s && x !in RemoveChildren(s, cs, fuel).value ==>
      exists i :: 0 <= i < |cs| && Reachable(s, cs[i], x)
    decreases fuel, 1, |cs|
  {
    if |cs| > 0 {
      var s1 := RemoveNode(s, cs[0], fuel).value;
      RemoveNodeOnlyReachable(s, cs[0], fuel);
      RemoveChildrenOnlyReachable(s1, cs[1..], fuel);
      var r := RemoveChildren(s, cs, fuel).value;
      forall x | x in s && x !in r ensures exists i :: 0 <= i < |cs| && Reachable(s, cs[i], x) {
        if x !in s1 {
          assert Reachable(s, cs[0], x);
        } else {
          var i :| 0 <= i < |cs[1..]| && Reachable(s1, cs[1..][i], x);
          ReachableShrunk(s, s1, cs[1..][i], x);
          assert Reachable(s, cs[i + 1], x);
        }
      }
    }
  }

  /**
   * When it ends, `RemoveNode` removes exactly the node and its descendants:
   * a resolvable node goes iff a walk along child links leads to it from `g`.
   */
  lemma RemoveNodeRemovesSubtree(s: Nodes, g: string, fuel: nat)
    requires Known(s, g) && RemoveNode(s, g, fuel).Some?
    ensures forall x :: Known(s, x) ==> (x !in RemoveNode(s, g, fuel).value <==> Reachable(s, g, x))
  {
    var r := RemoveNode(s, g, fuel).value;
    RemoveNodeOnlyReachable(s, g, fuel);
    forall x | Known(s, x) && Reachable(s, g, x) ensures x !in r {
      var p :| Path(s, p) && p[0] == g && p[|p| - 1] == x;
      ClosedAlongPath(s, r, p, |p| - 1);
    }
  }

  /** A childless node is removed alone, after being detached from its parent; nothing else changes. */
  lemma RemoveLeaf(s: Nodes, g: string, fuel: nat)
    requires Known(s, g) && s[g].childrenGuids == [] && fuel >= 1
    ensures RemoveNode(s, g, fuel) == Some(Detach(s, s[g].parentGuid, g) - {g})
  {
  }

  // ---- The parent's list after RemoveNode ----

  /** No surviving node's child list gains an entry: each is a sub-multiset of the old one. */
  ghost predicate Thinned(s: Nodes, r: Nodes) {
    forall x :: x in r && x in s ==> multiset(r[x].childrenGuids) <= multiset(s[x].childrenGuids)
  }

  lemma ThinnedTrans(s: Nodes, s1: Nodes, r: Nodes)
    requires Thinned(s, s1) && Thinned(s1, r)
    requires forall x :: x in r ==> x in s1
    ensures Thinned(s, r)
  {
  }

  lemma DetachThins(s: Nodes, p: string, g: string)
    ensures Thinned(s, Detach(s, p, g))
  {
    var r := Detach(s, p, g);
    forall x | x in r && x in s ensures multiset(r[x].childrenGuids) <= multiset(s[x].childrenGuids) {
      if Known(s, p) && x == p {
        assert r[x].childrenGuids == RemoveFirst(s[x].childrenGuids, g);
      } else {
        assert r[x] == s[x];
      }
    }
  }

  lemma {:induction false} RemoveNodeThins(s: Nodes, g: string, fuel: nat)
    requires RemoveNode(s, g, fuel).Some?
    ensures Thinned(s, RemoveNode(s, g, fuel).value)
    decreases fuel, 0
  {
    if Known(s, g) {
      var s1 := Detach(s, s[g].parentGuid, g);
      var cs := s1[g].childrenGuids;
      RemoveChildrenThins(s1, cs, fuel - 1);
      var s2 := RemoveChildren(s1, cs, fuel - 1).value;
      DetachThins(s, s[g].parentGuid, g);
      ThinnedKeys(s1, s2);
      ThinnedTrans(s, s1, s2);
      assert RemoveNode(s, g, fuel).value == s2 - {g};
    }
  }

  lemma {:induction false} RemoveChildrenThins(s: Nodes, cs: seq<string>, fuel: nat)
    requires RemoveChildren(s, cs, fuel).Some?
    ensures Thinned(s, RemoveChildren(s, cs, fuel).value)
    decreases fuel, 1, |cs|
  {
    if |cs| > 0 {
      RemoveNodeThins(s, cs[0], fuel);
      var s1 := RemoveNode(s, cs[0], fuel).value;
      RemoveChildrenThins(s1, cs[1..], fuel);
      var r := RemoveChildren(s1, cs[1..], fuel).value;
      ThinnedKeys(s1, r);
      ThinnedTrans(s, s1, r);
    }
  }

  /** A removal step only drops keys. */
  lemma ThinnedKeys(s: Nodes, r: Nodes)
    requires RemovalStep(s, r)
    ensures forall x :: x in r ==> x in s
  {
  }

  /**
   * `RemoveNode` takes `g` out of its parent's list: if the parent survives,
   * its list holds at most what the old list holds without one `g`, so `g`
   * is gone from it when it was listed once.
   */
  lemma RemoveNodeLeavesParent(s: Nodes, g: string, fuel: nat)
    requires Known(s, g) && Known(s, s[g].parentGuid)
    ensures var r := RemoveNode(s, g, fuel); var q := s[g].parentGuid;
      r.Some? && q in r.value ==>
        && multiset(r.value[q].childrenGuids) <= multiset(RemoveFirst(s[q].childrenGuids, g))
        && (multiset(s[q].childrenGuids)[g] <= 1 ==> g !in r.value[q].childrenGuids)
  {
    var q := s[g].parentGuid;
    var r := RemoveNode(s, g, fuel);
    if r.Some? && q in r.value {
      var s1, s2 := ThinnedStep(s, g, fuel);
      LeavesParentStep(s, g, q, s1, s2, r.value);
    }
  }

  /** One step of `RemoveNode` on a known node: detach, remove the children, drop the node. */
  lemma RemoveNodeUnfold(s: Nodes, g: string, fuel: nat) returns (s1: Nodes, cs: seq<string>, s2: Nodes)
    requires Known(s, g) && RemoveNode(s, g, fuel).Some?
    ensures fuel > 0 && s1 == Detach(s, s[g].parentGuid, g) && cs == s1[g].childrenGuids
    ensures RemoveChildren(s1, cs, fuel - 1) == Some(s2)
    ensures RemoveNode(s, g, fuel) == Some(s2 - {g})
  {
    s1 := Detach(s, s[g].parentGuid, g);
    cs := s1[g].childrenGuids;
    s2 := RemoveChildren(s1, cs, fuel - 1).value;
  }

  /** The detached map, and the children's removal from it, which only thins the lists. */
  lemma ThinnedStep(s: Nodes, g: string, fuel: nat) returns (s1: Nodes, s2: Nodes)
    requires Known(s, g) && RemoveNode(s, g, fuel).Some?
    ensures s1 == Detach(s, s[g].parentGuid, g) && Thinned(s1, s2)
    ensures RemoveNode(s, g, fuel) == Some(s2 - {g})
  {
    var cs;
    s1, cs, s2 := RemoveNodeUnfold(s, g, fuel);
    RemoveChildrenThins(s1, cs, fuel - 1);
  }

  lemma LeavesParentStep(s: Nodes, g: string, q: string, s1: Nodes, s2: Nodes, r: Nodes)
    requires Known(s, q) && s1 == Detach(s, q, g)
    requires Thinned(s1, s2) && r == s2 - {g} && q in r
    ensures multiset(r[q].childrenGuids) <= multiset(RemoveFirst(s[q].childrenGuids, g))
    ensures multiset(s[q].childrenGuids)[g] <= 1 ==> g !in r[q].childrenGuids
  {
    assert s1[q].childrenGuids == RemoveFirst(s[q].childrenGuids, g);
    assert r[q] == s2[q];
  }

  // ---- When the fuel suffices ----

  /** Every walk from `g` has at most `n` GUIDs. */
  ghost predicate WalksWithin(s: Nodes, g: string, n: nat) {
    forall p :: Path(s, p) && p[0] == g ==> |p| <= n
  }

  /** A walk in a shrunk map is a walk in the original. */
  lemma PathShrunk(s: Nodes, s1: Nodes, p: seq<string>)
    requires Shrunk(s, s1) && Path(s1, p)
    ensures Path(s, p)
  {
    forall i | 0 <= i < |p| - 1 ensures Known(s, p[i]) && p[i + 1] in s[p[i]].childrenGuids {
      var k := IndexOf(s1[p[i]].childrenGuids, p[i + 1]);
    }
  }

  lemma WalksShrunk(s: Nodes, s1: Nodes, g: string, n: nat)
    requires Shrunk(s, s1) && WalksWithin(s, g, n)
    ensures WalksWithin(s1, g, n)
  {
    forall p | Path(s1, p) && p[0] == g ensures |p| <= n {
      PathShrunk(s, s1, p);
    }
  }

  /** A walk from a child of `g` extends to one from `g`. */
  lemma PathPrepend(s: Nodes, g: string, p: seq<string>)
    requires Known(s, g) && Path(s, p) && p[0] in s[g].childrenGuids
    ensures Path(s, [g] + p)
  {
    var q := [g] + p;
    assert forall i :: 1 <= i < |q| ==> q[i] == p[i - 1];
  }

  /** In a shrunk map, the walks from a child of `g` are shorter than the bound for `g`. */
  lemma WalksFromChild(s: Nodes, s1: Nodes, g: string, c: string, n: nat)
    requires Shrunk(s, s1) && Known(s, g) && c in s[g].childrenGuids && WalksWithin(s, g, n)
    ensures n >= 1 && WalksWithin(s1, c, n - 1)
  {
    assert Path(s, [g]);
    forall p | Path(s1, p) && p[0] == c ensures |p| <= n - 1 {
      PathShrunk(s, s1, p);
      PathPrepend(s, g, p);
    }
  }

  /** Every walk from each of `cs` has at most `n` GUIDs. */
  ghost predicate AllWalksWithin(s: Nodes, cs: seq<string>, n: nat) {
    forall i :: 0 <= i < |cs| ==> WalksWithin(s, cs[i], n)
  }

  /** The children `RemoveNode` recurses into, each with one GUID less of walk. */
  lemma WalksFromChildren(s: Nodes, g: string, n: nat) returns (s1: Nodes, cs: seq<string>)
    requires Known(s, g) && WalksWithin(s, g, n)
    ensures s1 == Detach(s, s[g].parentGuid, g) && cs == s1[g].childrenGuids
    ensures n >= 1 && AllWalksWithin(s1, cs, n - 1)
  {
    s1 := Detach(s, s[g].parentGuid, g);
    cs := s1[g].childrenGuids;
    DetachShrinks(s, s[g].parentGuid, g);
    assert Path(s, [g]);
    forall i | 0 <= i < |cs| ensures WalksWithin(s1, cs[i], n - 1) {
      assert cs[i] in s[g].childrenGuids;
      WalksFromChild(s, s1, g, cs[i], n);
    }
  }

  /** `RemoveNode` succeeds on a known node when the children's removal does. */
  lemma RemoveNodeFolds(s: Nodes, g: string, fuel: nat, s1: Nodes, cs: seq<string>, f: nat)
    requires Known(s, g) && fuel == f + 1
    requires s1 == Detach(s, s[g].parentGuid, g) && cs == s1[g].childrenGuids
    requires RemoveChildren(s1, cs, f).Some?
    ensures RemoveNode(s, g, fuel).Some?
  {
  }

  /** `RemoveNode` ends (`Some`) when every walk from `g` is no longer than the fuel. */
  lemma {:induction false} RemoveNodeEnoughFuel(s: Nodes, g: string, fuel: nat)
    requires WalksWithin(s, g, fuel)
    ensures RemoveNode(s, g, fuel).Some?
    decreases fuel, 0
  {
    if Known(s, g) {
      var s1, cs := WalksFromChildren(s, g, fuel);
      var f: nat := fuel - 1;
      RemoveChildrenEnoughFuel(s1, cs, f);
      RemoveNodeFolds(s, g, fuel, s1, cs, f);
    }
  }

  lemma {:induction false} RemoveChildrenEnoughFuel(s: Nodes, cs: seq<string>, fuel: nat)
    requires AllWalksWithin(s, cs, fuel)
    ensures RemoveChildren(s, cs, fuel).Some?
    decreases fuel, 1, |cs|
  {
    if |cs| > 0 {
      assert WalksWithin(s, cs[0], fuel);
      RemoveNodeEnoughFuel(s, cs[0], fuel);
      var s1 := AllWalksAfterFirst(s, cs, fuel);
      RemoveChildrenEnoughFuel(s1, cs[1..], fuel);
      RemoveChildrenFolds(s, cs, fuel, s1);
    }
  }

  /** After the first child's removal, the walks from the other children are still bounded. */
  lemma AllWalksAfterFirst(s: Nodes, cs: seq<string>, fuel: nat) returns (s1: Nodes)
    requires |cs| > 0 && AllWalksWithin(s, cs, fuel) && RemoveNode(s, cs[0], fuel).Some?
    ensures RemoveNode(s, cs[0], fuel) == Some(s1) && AllWalksWithin(s1, cs[1..], fuel)
  {
    s1 := RemoveNode(s, cs[0], fuel).value;
    forall i | 0 <= i < |cs[1..]| ensures WalksWithin(s1, cs[1..][i], fuel) {
      assert WalksWithin(s, cs[i + 1], fuel);
      WalksShrunk(s, s1, cs[1..][i], fuel);
    }
  }

  /** `RemoveChildren` succeeds when the first removal and the rest do. */
  lemma RemoveChildrenFolds(s: Nodes, cs: seq<string>, fuel: nat, s1: Nodes)
    requires |cs| > 0 && RemoveNode(s, cs[0], fuel) == Some(s1)
    requires RemoveChildren(s1, cs[1..], fuel).Some?
    ensures RemoveChildren(s, cs, fuel).Some?
  {
  }

  /**
   * A node from which no walk returns to a GUID it passed (what `Validate`
   * asks of the root) is removed whenever the fuel exceeds the number of nodes.
   */
  lemma RemoveNodeAcyclicEnds(s: Nodes, g: string, fuel: nat)
    requires !CycleFrom(s, g) && fuel > |s|
    ensures RemoveNode(s, g, fuel).Some?
  {
    forall p | Path(s, p) && p[0] == g ensures |p| <= fuel {
      if |p| > |s| + 1 {
        LongWalkCycles(s, p);
        assert false;
      }
    }
    RemoveNodeEnoughFuel(s, g, fuel);
  }

  /** A walk longer than the map has nodes passes some GUID twice, so it contains a cycle walk. */
  lemma LongWalkCycles(s: Nodes, p: seq<string>)
    requires Path(s, p) && |p| > |s| + 1
    ensures CycleFrom(s, p[0])
  {
    var q := p[..|s| + 1];
    assert forall i :: 0 <= i < |q| ==> q[i] in s;
    var i, j := FindRepeat(s, q);
    RepeatIsCycle(s, p, i, j);
  }

  /** A walk that passes a GUID twice contains a cycle walk from its start. */
  lemma RepeatIsCycle(s: Nodes, p: seq<string>, i: nat, j: nat)
    requires Path(s, p) && i < j < |p| && p[i] == p[j]
    ensures CycleFrom(s, p[0])
  {
    var w := p[..j + 1];
    assert Path(s, w);
    assert w[..|w| - 1][i] == w[|w| - 1];
  }

  /** More GUIDs than nodes, all naming nodes: two of them agree. */
  lemma FindRepeat(s: Nodes, q: seq<string>) returns (i: nat, j: nat)
    requires forall k :: 0 <= k < |q| ==> q[k] in s
    requires |q| > |s|
    ensures i < j < |q| && q[i] == q[j]
  {
    if forall a, b :: 0 <= a < b < |q| ==> q[a] != q[b] {
      DistinctWithinKeys(s, q);
      assert false;
    }
    var a, b :| 0 <= a < b < |q| && q[a] == q[b];
    i, j := a, b;
  }

  /** Pigeonhole: distinct GUIDs that all name nodes are no more than the nodes. */
  lemma DistinctWithinKeys(s: Nodes, q: seq<string>)
    requires forall i :: 0 <= i < |q| ==> q[i] in s
    requires forall i, j :: 0 <= i < j < |q| ==> q[i] != q[j]
    ensures |q| <= |s|
  {
    DistinctCard(q);
    var vs := set x | x in q;
    assert vs <= s.Keys;
    SubsetCard(vs, s.Keys);
  }

  lemma {:induction false} DistinctCard(q: seq<string>)
    requires forall i, j :: 0 <= i < j < |q| ==> q[i] != q[j]
    ensures |set x | x in q| == |q|
    decreases |q|
  {
    if |q| > 0 {
      var h := q[..|q| - 1];
      DistinctCard(h);
      assert (set x | x in q) == (set x | x in h) + {q[|q| - 1]};
      assert q[|q| - 1] !in h;
    }
  }

  lemma {:induction false} SubsetCard(a: set<string>, b: set<string>)
    requires a <= b
    ensures |a| <= |b|
    decreases |a|
  {
    if a != {} {
      var x :| x in a;
      SubsetCard(a - {x}, b - {x});
    }
  }

  /** `RemoveNode` on the asset; the root GUID is left as it is even when the root goes. */
  function RemoveTreeNode(t: TreeData, g: string, fuel: nat): (r: Option<TreeData>)
    ensures r.Some? <==> RemoveNode(t.allNodes, g, fuel).Some?
    ensures r.Some? ==> r.value == t.(allNodes := RemoveNode(t.allNodes, g, fuel).value)
    ensures !Known(t.allNodes, g) ==> r == Some(t)
  {
    match RemoveNode(t.allNodes, g, fuel)
    case None => None
    case Some(nodes) => Some(t.(allNodes := nodes))
  }

  // ---------------------------------------------------------------------------
  // Adding and linking.

  /**
   * `AddNode`: `null` and an empty GUID are ignored; otherwise the node is
   * stored under its GUID, replacing any node there, and becomes the root if it
   * is a Root node and no root is set.
   */
  function AddNode(t: TreeData, nd: Option<ND.NodeData>): (r: TreeData)
    ensures nd.None? || nd.value.guid == "" ==> r == t
    ensures nd.Some? && nd.value.guid != "" ==>
      && r.allNodes == t.allNodes[nd.value.guid := nd.value]
      && r.treeName == t.treeName && r.description == t.description
      && (if nd.value.nodeType == ND.Root && t.rootNodeGuid == ""
          then r.rootNodeGuid == nd.value.guid
          else r.rootNodeGuid == t.rootNodeGuid)
  {
    match nd
    case None => t
    case Some(n) =>
      if n.guid == "" then t
      else
        var t1 := t.(allNodes := t.allNodes[n.guid := n]);
        if n.nodeType == ND.Root && t.rootNodeGuid == "" then t1.(rootNodeGuid := n.guid) else t1
  }

  /** Reading back a node just added gives it, and every other GUID reads as before. */
  lemma AddThenGet(t: TreeData, nd: ND.NodeData, g: string)
    requires nd.guid != ""
    ensures GetNodeData(AddNode(t, Some(nd)).allNodes, nd.guid) == Some(nd)
    ensures g != nd.guid ==> GetNodeData(AddNode(t, Some(nd)).allNodes, g) == GetNodeData(t.allNodes, g)
  {
  }

  /**
   * `ConnectNodes`: unless both resolve nothing happens. The child is taken out
   * of its old parent's list, appended to the new parent's list if not already
   * there, and its parent GUID is set. Each step reads the map as the previous
   * step left it, as the source's shared node objects do.
   */
  function ConnectNodes(t: TreeData, p: string, c: string): (r: TreeData)
    ensures !Known(t.allNodes, p) || !Known(t.allNodes, c) ==> r == t
    ensures Known(t.allNodes, p) && Known(t.allNodes, c) ==>
      && r.allNodes.Keys == t.allNodes.Keys
      && r.allNodes[c].parentGuid == p
      && c in r.allNodes[p].childrenGuids
      && r.rootNodeGuid == t.rootNodeGuid
    ensures Known(t.allNodes, p) && Known(t.allNodes, c) ==> Connected(t.allNodes, p, c, r.allNodes)
  {
    var s := t.allNodes;
    if !Known(s, p) || !Known(s, c) then t
    else
      var s1 := Detach(s, s[c].parentGuid, c);
      var s2 := if c in s1[p].childrenGuids then s1
                else WithChildren(s1, p, s1[p].childrenGuids + [c]);
      var s3 := WithParent(s2, c, p);
      ConnectSteps(s, p, c, s1, s2, s3);
      t.(allNodes := s3)
  }

  /**
   * What connecting `c` under `p` does to the map, `op` being the old parent:
   * `c` is taken out of the old parent's list; `p`'s list (after that) gains
   * `c` at its end unless it already holds it; `c` records `p` as its parent;
   * nothing else changes.
   */
  ghost predicate Connected(s: Nodes, p: string, c: string, r: Nodes)
    requires Known(s, p) && Known(s, c)
  {
    var op := s[c].parentGuid;
    var l1 := if Known(s, op) && op == p then RemoveFirst(s[p].childrenGuids, c) else s[p].childrenGuids;
    && (forall y :: y in s <==> y in r)
    && r[p].childrenGuids == (if c in l1 then l1 else l1 + [c])
    && (Known(s, op) && op != p ==> r[op].childrenGuids == RemoveFirst(s[op].childrenGuids, c))
    && (forall y :: y in s && y != p && !(Known(s, op) && y == op) ==> r[y].childrenGuids == s[y].childrenGuids)
    && (forall y :: y in s && y != c ==> r[y] == s[y].(childrenGuids := r[y].childrenGuids))
    && r[c] == s[c].(parentGuid := p, childrenGuids := r[c].childrenGuids)
  }

  lemma ConnectSteps(s: Nodes, p: string, c: string, s1: Nodes, s2: Nodes, s3: Nodes)
    requires Known(s, p) && Known(s, c)
    requires s1 == Detach(s, s[c].parentGuid, c)
    requires s2 == if c in s1[p].childrenGuids then s1 else WithChildren(s1, p, s1[p].childrenGuids + [c])
    requires s3 == WithParent(s2, c, p)
    ensures Connected(s, p, c, s3)
  {
    var op := s[c].parentGuid;
    var k := Known(s, op);
    var l1 := if k && op == p then RemoveFirst(s[p].childrenGuids, c) else s[p].childrenGuids;
    var l2 := if c in l1 then l1 else l1 + [c];
    DetachIsUpdate(s, c, s1);
    assert s1[p].childrenGuids == l1;
    AppendIsUpdate(s1, p, c, s2, l2);
    ConnectFrame(s, p, c, op, k, l1, l2, s1, s2, s3);
  }

  lemma DetachIsUpdate(s: Nodes, c: string, s1: Nodes)
    requires c in s
    requires s1 == Detach(s, s[c].parentGuid, c)
    ensures s1 == if Known(s, s[c].parentGuid) then
      s[s[c].parentGuid := s[s[c].parentGuid].(childrenGuids := RemoveFirst(s[s[c].parentGuid].childrenGuids, c))] else s
  {
  }

  lemma AppendIsUpdate(s1: Nodes, p: string, c: string, s2: Nodes, l2: seq<string>)
    requires p in s1
    requires s2 == if c in s1[p].childrenGuids then s1 else WithChildren(s1, p, s1[p].childrenGuids + [c])
    requires l2 == if c in s1[p].childrenGuids then s1[p].childrenGuids else s1[p].childrenGuids + [c]
    ensures s2 == s1[p := s1[p].(childrenGuids := l2)]
  {
  }

  lemma ConnectFrame(s: Nodes, p: string, c: string, op: string, k: bool, l1: seq<string>, l2: seq<string>,
                     s1: Nodes, s2: Nodes, s3: Nodes)
    requires Known(s, p) && Known(s, c) && op == s[c].parentGuid && k == Known(s, op)
    requires l1 == if k && op == p then RemoveFirst(s[p].childrenGuids, c) else s[p].childrenGuids
    requires l2 == if c in l1 then l1 else l1 + [c]
    requires s1 == if k then s[op := s[op].(childrenGuids := RemoveFirst(s[op].childrenGuids, c))] else s
    requires s2 == s1[p := s1[p].(childrenGuids := l2)]
    requires s3 == s2[c := s2[c].(parentGuid := p)]
    ensures Connected(s, p, c, s3)
  {
    ConnectChanged(s, p, c, op, k, l2, s1, s2, s3);
    ConnectOtherLists(s, p, c, op, k, l2, s1, s2, s3);
    ConnectKeepsFields(s, p, c, op, k, l2, s1, s2, s3);
  }

  lemma ConnectChanged(s: Nodes, p: string, c: string, op: string, k: bool, l2: seq<string>, s1: Nodes, s2: Nodes, s3: Nodes)
    requires Known(s, p) && Known(s, c) && op == s[c].parentGuid && k == Known(s, op)
    requires s1 == if k then s[op := s[op].(childrenGuids := RemoveFirst(s[op].childrenGuids, c))] else s
    requires s2 == s1[p := s1[p].(childrenGuids := l2)]
    requires s3 == s2[c := s2[c].(parentGuid := p)]
    ensures s3[c] == s[c].(parentGuid := p, childrenGuids := s3[c].childrenGuids)
    ensures s3[p].childrenGuids == l2
    ensures k && op != p ==> s3[op].childrenGuids == RemoveFirst(s[op].childrenGuids, c)
  {
  }

  lemma ConnectOtherLists(s: Nodes, p: string, c: string, op: string, k: bool, l2: seq<string>, s1: Nodes, s2: Nodes, s3: Nodes)
    requires Known(s, p) && Known(s, c) && op == s[c].parentGuid && k == Known(s, op)
    requires s1 == if k then s[op := s[op].(childrenGuids := RemoveFirst(s[op].childrenGuids, c))] else s
    requires s2 == s1[p := s1[p].(childrenGuids := l2)]
    requires s3 == s2[c := s2[c].(parentGuid := p)]
    ensures forall y :: y in s && y != p && !(k && y == op) ==> s3[y].childrenGuids == s[y].childrenGuids
  {
  }

  lemma ConnectKeepsFields(s: Nodes, p: string, c: string, op: string, k: bool, l2: seq<string>, s1: Nodes, s2: Nodes, s3: Nodes)
    requires Known(s, p) && Known(s, c) && op == s[c].parentGuid && k == Known(s, op)
    requires s1 == if k then s[op := s[op].(childrenGuids := RemoveFirst(s[op].childrenGuids, c))] else s
    requires s2 == s1[p := s1[p].(childrenGuids := l2)]
    requires s3 == s2[c := s2[c].(parentGuid := p)]
    ensures forall y :: y in s && y != c ==> s3[y] == s[y].(childrenGuids := s3[y].childrenGuids)
  {
  }

  /** Reconnecting a child to its current parent moves it to the end of the list. */
  lemma ReconnectMovesToEnd(t: TreeData, p: string, c: string)
    requires Known(t.allNodes, p) && Known(t.allNodes, c) && p != c
    requires t.allNodes[c].parentGuid == p
    requires multiset(t.allNodes[p].childrenGuids)[c] == 1
    ensures ConnectNodes(t, p, c).allNodes[p].childrenGuids == RemoveFirst(t.allNodes[p].childrenGuids, c) + [c]
  {
    var l := t.allNodes[p].childrenGuids;
    assert c !in RemoveFirst(l, c) by {
      assert multiset(RemoveFirst(l, c))[c] == 0;
    }
  }

  /**
   * `DisconnectNodes`: unless both resolve nothing happens. The child is taken
   * out of the parent's list (first occurrence); its parent GUID is cleared only
   * if it names that parent.
   */
  function DisconnectNodes(t: TreeData, p: string, c: string): (r: TreeData)
    ensures !Known(t.allNodes, p) || !Known(t.allNodes, c) ==> r == t
    ensures Known(t.allNodes, p) && Known(t.allNodes, c) ==>
      && r.allNodes.Keys == t.allNodes.Keys
      && (t.allNodes[c].parentGuid == p ==> r.allNodes[c].parentGuid == "")
      && (t.allNodes[c].parentGuid != p && c != p ==> r.allNodes[c] == t.allNodes[c])
      && (c != p ==> r.allNodes[p].childrenGuids == RemoveFirst(t.allNodes[p].childrenGuids, c))
      && (forall x :: x in t.allNodes && x != p && x != c ==> r.allNodes[x] == t.allNodes[x])
  {
    var s := t.allNodes;
    if !Known(s, p) || !Known(s, c) then t
    else
      var s1 := WithChildren(s, p, RemoveFirst(s[p].childrenGuids, c));
      var s2 := if s1[c].parentGuid == p then WithParent(s1, c, "") else s1;
      t.(allNodes := s2)
  }

  /** Disconnecting undoes connecting a parentless child that its new parent did not list. */
  lemma DisconnectUndoesConnect(t: TreeData, p: string, c: string)
    requires Known(t.allNodes, p) && Known(t.allNodes, c)
    requires t.allNodes[c].parentGuid == "" && c !in t.allNodes[p].childrenGuids
    ensures DisconnectNodes(ConnectNodes(t, p, c), p, c) == t
  {
    var s := t.allNodes;
    var l := s[p].childrenGuids;
    RemoveFirstUndoesAppend(l, c);
    var s3 := WithParent(WithChildren(s, p, l + [c]), c, p);
    ConnectParentless(t, p, c);
    assert s3[p].childrenGuids == l + [c];
    DisconnectLinked(ConnectNodes(t, p, c), p, c);
    LinkRoundTrip(s, p, c);
  }

  /** Appending `c` to `p`'s list and linking it, then taking both back, restores the map. */
  lemma LinkRoundTrip(s: Nodes, p: string, c: string)
    requires p in s && c in s && s[c].parentGuid == ""
    ensures var l := s[p].childrenGuids;
      WithParent(WithChildren(WithParent(WithChildren(s, p, l + [c]), c, p), p, l), c, "") == s
  {
    var l := s[p].childrenGuids;
    var u := WithParent(WithChildren(WithParent(WithChildren(s, p, l + [c]), c, p), p, l), c, "");
    forall x | x in s ensures u[x] == s[x] {
      if x == p || x == c {
        assert u[x].childrenGuids == s[x].childrenGuids;
        assert u[x].parentGuid == s[x].parentGuid;
      }
    }
    assert u.Keys == s.Keys;
  }

  /** Connecting a parentless child that is not yet listed only appends it and sets its parent link. */
  lemma ConnectParentless(t: TreeData, p: string, c: string)
    requires Known(t.allNodes, p) && Known(t.allNodes, c)
    requires t.allNodes[c].parentGuid == "" && c !in t.allNodes[p].childrenGuids
    ensures ConnectNodes(t, p, c) ==
      t.(allNodes := WithParent(WithChildren(t.allNodes, p, t.allNodes[p].childrenGuids + [c]), c, p))
  {
    assert Detach(t.allNodes, t.allNodes[c].parentGuid, c) == t.allNodes;
  }

  /** Disconnecting a linked child takes it out of the parent's list and clears its parent link. */
  lemma DisconnectLinked(t: TreeData, p: string, c: string)
    requires Known(t.allNodes, p) && Known(t.allNodes, c) && t.allNodes[c].parentGuid == p
    ensures DisconnectNodes(t, p, c) ==
      t.(allNodes := WithParent(WithChildren(t.allNodes, p, RemoveFirst(t.allNodes[p].childrenGuids, c)), c, ""))
  {
  }

  /** `GetNodesByType`: the nodes of one type (the source's list order follows the dictionary and is not modelled). */
  function GetNodesByType(t: TreeData, nodeType: ND.NodeType): (r: set<ND.NodeData>)
    ensures forall g :: g in t.allNodes && t.allNodes[g].nodeType == nodeType ==> t.allNodes[g] in r
    ensures forall nd :: nd in r ==> nd.nodeType == nodeType && exists g :: g in t.allNodes && t.allNodes[g] == nd
  {
    set g | g in t.allNodes && t.allNodes[g].nodeType == nodeType :: t.allNodes[g]
  }

  // ---------------------------------------------------------------------------
  // Cloning, creation and validation.

  /** `Clone`: same name, description and root; every node cloned under its key. */
  function Clone(t: TreeData): (r: TreeData)
    ensures r.treeName == t.treeName && r.description == t.description && r.rootNodeGuid == t.rootNodeGuid
    ensures r.allNodes.Keys == t.allNodes.Keys
    ensures forall g :: g in t.allNodes ==> r.allNodes[g] == ND.Clone(t.allNodes[g])
  {
    t.(allNodes := map g | g in t.allNodes :: ND.Clone(t.allNodes[g]))
  }

  /** The class name `Create` gives the root node. */
  const RootClassName := "RootNode"

  /**
   * `Create`: a tree named `name` holding exactly one Root node, of class
   * `RootNode`, at the origin, which the root GUID names. The source draws
   * the GUID at random; here it is the parameter `guid`.
   */
  function Create(name: string, guid: string): (r: TreeData)
    requires guid != ""
    ensures r.treeName == name && r.rootNodeGuid == guid
    ensures r.allNodes.Keys == {guid}
    ensures r.allNodes[guid] == ND.Create(ND.Root, RootClassName, ND.Position(0.0, 0.0), guid)
  {
    var root := ND.Create(ND.Root, RootClassName, ND.Position(0.0, 0.0), guid);
    var t := AddNode(TreeData(name, "", "", map[]), Some(root));
    t.(rootNodeGuid := root.guid)
  }

  /** `HasCycle(g, visited)`: whether a walk from `g` meets a GUID of `visited` or repeats itself. Each child gets its own copy of `visited`. */
  function HasCycle(s: Nodes, g: string, visited: set<string>): bool
    decreases |s.Keys - visited|, 0
  {
    if g in visited then true
    else if !Known(s, g) then false
    else
      VisitShrinks(s.Keys, visited, g);
      AnyCycle(s, s[g].childrenGuids, visited + {g})
  }

  function AnyCycle(s: Nodes, cs: seq<string>, visited: set<string>): bool
    decreases |s.Keys - visited|, 1, |cs|
  {
    if |cs| == 0 then false else HasCycle(s, cs[0], visited) || AnyCycle(s, cs[1..], visited)
  }

  /** A walk from `g` ending in `visited` or at a GUID it already passed. */
  ghost predicate CycleWalk(s: Nodes, g: string, visited: set<string>) {
    exists p :: Path(s, p) && p[0] == g && (p[|p| - 1] in visited || p[|p| - 1] in p[..|p| - 1])
  }

  /** `HasCycle` finds exactly the walks that return to a visited GUID. */
  lemma {:induction false} HasCycleIffCycleWalk(s: Nodes, g: string, visited: set<string>)
    ensures HasCycle(s, g, visited) <==> CycleWalk(s, g, visited)
    decreases |s.Keys - visited|, 0
  {
    if HasCycle(s, g, visited) {
      HasCycleWalk(s, g, visited);
    }
    if CycleWalk(s, g, visited) {
      var p :| Path(s, p) && p[0] == g && (p[|p| - 1] in visited || p[|p| - 1] in p[..|p| - 1]);
      WalkHasCycle(s, p, visited);
    }
  }

  lemma {:induction false} HasCycleWalk(s: Nodes, g: string, visited: set<string>)
    requires HasCycle(s, g, visited)
    ensures CycleWalk(s, g, visited)
    decreases |s.Keys - visited|, 0
  {
    if g in visited {
      assert Path(s, [g]);
    } else {
      VisitShrinks(s.Keys, visited, g);
      assert AnyCycle(s, s[g].childrenGuids, visited + {g});
      var c := AnyCycleWitness(s, s[g].childrenGuids, visited + {g});
      HasCycleWalk(s, c, visited + {g});
      CycleWalkPrepend(s, g, c, visited);
    }
  }

  /** Visiting one more known GUID leaves fewer unvisited. */
  lemma VisitShrinks(keys: set<string>, visited: set<string>, g: string)
    requires g in keys && g !in visited
    ensures |keys - (visited + {g})| < |keys - visited|
  {
    assert keys - visited == (keys - (visited + {g})) + {g};
  }

  /** A walk from a child of `g` back into `visited` or `g` extends to a cycle walk from `g`. */
  lemma CycleWalkPrepend(s: Nodes, g: string, c: string, visited: set<string>)
    requires Known(s, g) && c in s[g].childrenGuids && CycleWalk(s, c, visited + {g})
    ensures CycleWalk(s, g, visited)
  {
    var p :| Path(s, p) && p[0] == c && (p[|p| - 1] in visited + {g} || p[|p| - 1] in p[..|p| - 1]);
    var q := [g] + p;
    assert forall i :: 1 <= i < |q| ==> q[i] == p[i - 1];
    assert Path(s, q);
    assert q[..|q| - 1] == [g] + p[..|p| - 1];
    assert q[|q| - 1] == p[|p| - 1];
  }

  /** A child that makes `AnyCycle` true. */
  lemma {:induction false} AnyCycleWitness(s: Nodes, cs: seq<string>, visited: set<string>) returns (c: string)
    requires AnyCycle(s, cs, visited)
    ensures c in cs && HasCycle(s, c, visited)
    decreases |cs|
  {
    if HasCycle(s, cs[0], visited) {
      c := cs[0];
    } else {
      c := AnyCycleWitness(s, cs[1..], visited);
    }
  }

  lemma {:induction false} AnyCycleOf(s: Nodes, cs: seq<string>, visited: set<string>, c: string)
    requires c in cs && HasCycle(s, c, visited)
    ensures AnyCycle(s, cs, visited)
    decreases |cs|
  {
    if cs[0] != c {
      AnyCycleOf(s, cs[1..], visited, c);
    }
  }

  lemma {:induction false} WalkHasCycle(s: Nodes, p: seq<string>, visited: set<string>)
    requires Path(s, p) && (p[|p| - 1] in visited || p[|p| - 1] in p[..|p| - 1])
    ensures HasCycle(s, p[0], visited)
    decreases |p|
  {
    var g := p[0];
    if g !in visited {
      assert |p| > 1;
      var q := p[1..];
      assert Path(s, q);
      assert p[..|p| - 1] == [g] + q[..|q| - 1];
      WalkHasCycle(s, q, visited + {g});
      AnyCycleOf(s, s[g].childrenGuids, visited + {g}, q[0]);
    }
  }

  /** Why `Validate` rejects a tree. */
  datatype ValidationError = MissingRoot | InvalidRootGuid | CycleFound

  /**
   * `Validate`: the root GUID must be set and present, and no walk from the root
   * may return to a GUID it passed. Nodes reached along two different walks are
   * no cycle. `None` means valid.
   */
  function Validate(t: TreeData): (r: Option<ValidationError>)
    ensures r == Some(MissingRoot) <==> t.rootNodeGuid == ""
    ensures r == Some(InvalidRootGuid) <==> t.rootNodeGuid != "" && t.rootNodeGuid !in t.allNodes
    ensures r == Some(CycleFound) <==> Known(t.allNodes, t.rootNodeGuid) && CycleFrom(t.allNodes, t.rootNodeGuid)
    ensures r == None <==> Known(t.allNodes, t.rootNodeGuid) && !CycleFrom(t.allNodes, t.rootNodeGuid)
  {
    if t.rootNodeGuid == "" then Some(MissingRoot)
    else if t.rootNodeGuid !in t.allNodes then Some(InvalidRootGuid)
    else
      HasCycleIffCycleWalk(t.allNodes, t.rootNodeGuid, {});
      if HasCycle(t.allNodes, t.rootNodeGuid, {}) then Some(CycleFound) else None
  }

  /** A freshly created tree is valid. */
  lemma CreateIsValid(name: string, guid: string)
    requires guid != ""
    ensures Validate(Create(name, guid)) == None
  {
    var t := Create(name, guid);
    assert t.allNodes[guid].childrenGuids == [];
    assert !HasCycle(t.allNodes, guid, {});
  }

  /** Cloning keeps every link, so a clone validates exactly as its original does. */
  lemma CloneValidatesAlike(t: TreeData)
    ensures Validate(Clone(t)) == Validate(t)
  {
    var s := t.allNodes;
    var s' := Clone(t).allNodes;
    forall p | Path(s, p) ensures Path(s', p) {}
    forall p | Path(s', p) ensures Path(s, p) {}
  }

  /** A node shared by two branches (a diamond) is no cycle; a node listing itself is one. */
  lemma SharedChildIsNoCycle(a: ND.NodeData, b: ND.NodeData, d: ND.NodeData, root: ND.NodeData)
    requires root.guid == "R" && root.childrenGuids == ["A", "B"]
    requires a.childrenGuids == ["D"] && b.childrenGuids == ["D"] && d.childrenGuids == []
    ensures Validate(TreeData("t", "", "R", map["R" := root, "A" := a, "B" := b, "D" := d])) == None
    ensures Validate(TreeData("t", "", "R", map["R" := root, "A" := a, "B" := b, "D" := d.(childrenGuids := ["D"])])) == Some(CycleFound)
  {
    var s := map["R" := root, "A" := a, "B" := b, "D" := d];
    assert !HasCycle(s, "D", {"R", "A"});
    assert !AnyCycle(s, ["D"], {"R", "A"});
    assert s["A"].childrenGuids == ["D"] && s["B"].childrenGuids == ["D"] && s["R"].childrenGuids == ["A", "B"];
    assert {"R"} + {"A"} == {"R", "A"} && {"R"} + {"B"} == {"R", "B"} && {} + {"R"} == {"R"};
    assert !HasCycle(s, "A", {"R"});
    assert !HasCycle(s, "D", {"R", "B"});
    assert !AnyCycle(s, ["D"], {"R", "B"});
    assert !HasCycle(s, "B", {"R"});
    assert ["A", "B"][1..] == ["B"] && ["B"][1..] == [];
    assert !AnyCycle(s, ["B"], {"R"});
    assert !AnyCycle(s, ["A", "B"], {"R"});
    assert !HasCycle(s, "R", {});
    var s' := s["D" := d.(childrenGuids := ["D"])];
    assert s'["A"].childrenGuids == ["D"] && s'["R"].childrenGuids == ["A", "B"] && s'["D"].childrenGuids == ["D"];
    assert {"R", "A"} + {"D"} == {"R", "A", "D"};
    assert HasCycle(s', "D", {"R", "A", "D"});
    assert HasCycle(s', "D", {"R", "A"});
    assert HasCycle(s', "A", {"R"});
    assert HasCycle(s', "R", {});
    assert s' == map["R" := root, "A" := a, "B" := b, "D" := d.(childrenGuids := ["D"])];
  }
}
