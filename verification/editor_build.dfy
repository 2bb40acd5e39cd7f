/**
 * How the editor engine's `BehaviorTree` turns a tree asset into node
 * instances: one instance per node whose class can be created, then the
 * `Children` lists and `Parent` links through `BTNode.AddChild`.
 * Instances are named by their GUID.
 */
module EditorBuild {
  import opened Wrappers
  import ND = EditorNodeData
  import TD = EditorTreeData
  import Seqs

  /** The instance graph: the `Children` list of every instance, and the `Parent` of those that have one. */
  datatype Links = Links(children: map<string, seq<string>>, parent: map<string, string>)

  predicate NoDup(s: seq<string>) {
    forall i, j :: 0 <= i < j < |s| ==> s[i] != s[j]
  }

  /** Every `Parent` names an instance that lists the child, and every listed child has a `Parent`. */
  predicate ParentsConsistent(l: Links) {
    && (forall c :: c in l.parent ==> l.parent[c] in l.children && c in l.children[l.parent[c]])
    && (forall q, c :: q in l.children && c in l.children[q] ==> c in l.parent)
  }

  /**
   * `BTNode.AddChild`: a `null` child or one already listed changes
   * nothing; otherwise the child goes to the end of the list and its
   * `Parent` becomes this node, whatever it was before.
   */
  function AddChild(l: Links, p: string, c: Option<string>): (r: Links)
    requires p in l.children
    ensures c.None? || c.value in l.children[p] ==> r == l
    ensures r.children.Keys == l.children.Keys
    ensures forall q :: q in l.children && q != p ==> r.children[q] == l.children[q]
    ensures |r.children[p]| >= |l.children[p]| && r.children[p][..|l.children[p]|] == l.children[p]
    ensures c.Some? && c.value !in l.children[p] ==> r.children[p] == l.children[p] + [c.value]
    ensures forall x :: x in r.children[p] <==> x in l.children[p] || c == Some(x)
    ensures NoDup(l.children[p]) ==> NoDup(r.children[p])
    ensures c.Some? && c.value !in l.children[p] ==> c.value in r.parent && r.parent[c.value] == p
    ensures forall x :: x in l.parent && c != Some(x) ==> x in r.parent && r.parent[x] == l.parent[x]
    ensures forall x :: x in r.parent ==> x in l.parent || c == Some(x)
    ensures ParentsConsistent(l) ==> ParentsConsistent(r)
  {
    match c
    case None => l
    case Some(x) =>
      if x in l.children[p] then l
      else
        var s := l.children[p] + [x];
        assert s[..|l.children[p]|] == l.children[p];
        Links(l.children[p := s], l.parent[x := p])
  }

  /**
   * `BTNode.RemoveChild`: a child that is not listed changes nothing;
   * otherwise its first occurrence leaves the list and its `Parent` is
   * cleared.
   */
  function RemoveChild(l: Links, p: string, c: Option<string>): (r: Links)
    requires p in l.children
    ensures c.None? || c.value !in l.children[p] ==> r == l
    ensures r.children.Keys == l.children.Keys
    ensures forall q :: q in l.children && q != p ==> r.children[q] == l.children[q]
    ensures c.Some? && c.value in l.children[p] ==>
      && r.children[p] == Seqs.RemoveFirst(l.children[p], c.value)
      && |r.children[p]| == |l.children[p]| - 1
      && c.value !in r.parent
      && (NoDup(l.children[p]) ==> c.value !in r.children[p])
    ensures forall x :: x in l.parent && c != Some(x) ==> x in r.parent && r.parent[x] == l.parent[x]
    ensures forall x :: x in r.parent ==> x in l.parent
  {
    match c
    case None => l
    case Some(x) =>
      if x !in l.children[p] then l
      else
        var s := Seqs.RemoveFirst(l.children[p], x);
        Links(l.children[p := s], l.parent - {x})
  }

  /** Adding a child that was not listed and removing it again gives back every list. */
  lemma AddThenRemoveChild(l: Links, p: string, c: string)
    requires p in l.children && c !in l.children[p]
    ensures RemoveChild(AddChild(l, p, Some(c)), p, Some(c)).children == l.children
    ensures c !in RemoveChild(AddChild(l, p, Some(c)), p, Some(c)).parent
  {
    var a := AddChild(l, p, Some(c));
    assert a.children[p] == l.children[p] + [c];
    assert Seqs.IndexOf(a.children[p], c) == |l.children[p]|;
    assert a.children[p][..|l.children[p]|] == l.children[p];
    assert a.children[p][|l.children[p]| + 1..] == [];
    assert Seqs.RemoveFirst(a.children[p], c) == l.children[p];
  }

  // ---- BuildNodeTree ----

  /** `CreateNodeInstance` succeeds: a Root node without class name, or a class the type lookup finds. */
  predicate Creatable(nd: ND.NodeData, known: string -> bool) {
    if nd.nodeClassName == "" then nd.nodeType == ND.Root else known(nd.nodeClassName)
  }

  // ---- The order of the linked children ----

  /** The GUIDs of `cs` that name instances, in their order. */
  function InInstances(cs: seq<string>, inst: set<string>): (r: seq<string>)
    ensures forall x :: x in r <==> x in cs && x in inst
    decreases |cs|
  {
    if cs == [] then []
    else
      assert forall x :: x in cs <==> x == cs[0] || x in cs[1..];
      (if cs[0] in inst then [cs[0]] else []) + InInstances(cs[1..], inst)
  }

  /**
   * The elements of `s` that are not in `seen` and do not occur earlier in
   * `s`, in order: the first occurrences of what is new.
   */
  function Unseen(s: seq<string>, seen: seq<string>): (r: seq<string>)
    ensures NoDup(r)
    ensures forall x :: x in r <==> x in s && x !in seen
    decreases |s|
  {
    if s == [] then []
    else
      assert forall x :: x in s <==> x == s[0] || x in s[1..];
      if s[0] in seen then Unseen(s[1..], seen)
      else
        var rest := Unseen(s[1..], seen + [s[0]]);
        assert forall x :: x in seen + [s[0]] <==> x in seen || x == s[0];
        assert s[0] !in rest;
        assert forall i :: 1 <= i < |[s[0]] + rest| ==> ([s[0]] + rest)[i] == rest[i - 1];
        [s[0]] + rest
  }

  /** `s` with every repetition of an earlier element dropped. */
  function FirstOccurrences(s: seq<string>): (r: seq<string>)
    ensures NoDup(r) && forall x :: x in r <==> x in s
  {
    Unseen(s, [])
  }

  /**
   * `LinkChildren` appends, after the existing list, the first occurrence of
   * each GUID of `cs` that names an instance and is not listed yet, in the
   * order of `cs`.
   */
  lemma {:induction false} LinkChildrenOrder(l: Links, p: string, cs: seq<string>, inst: set<string>)
    requires p in l.children && NoDup(l.children[p])
    ensures LinkChildren(l, p, cs, inst).children[p] == l.children[p] + Unseen(InInstances(cs, inst), l.children[p])
    decreases |cs|
  {
    var lp := l.children[p];
    if cs == [] {
      assert lp + [] == lp;
    } else {
      var l1, f0 := LinkFirst(l, p, cs, inst);
      LinkChildrenOrder(l1, p, cs[1..], inst);
      LinkOrderStep(lp, cs[0], f0, InInstances(cs[1..], inst), l1.children[p], LinkChildren(l1, p, cs[1..], inst).children[p]);
    }
  }

  /** One GUID more in front: the order equation carries over. */
  lemma LinkOrderStep(lp: seq<string>, x: string, f0: seq<string>, m: seq<string>, l1p: seq<string>, r: seq<string>)
    requires f0 == [x] || f0 == []
    requires l1p == (if f0 == [x] && x !in lp then lp + [x] else lp)
    requires r == l1p + Unseen(m, l1p)
    ensures r == lp + Unseen(f0 + m, lp)
  {
    if f0 == [] {
      assert f0 + m == m;
    } else if x in lp {
      UnseenCons(x, m, lp);
    } else {
      UnseenCons(x, m, lp);
      SnocAssoc(lp, x, Unseen(m, lp + [x]));
    }
  }

  lemma SnocAssoc(a: seq<string>, x: string, u: seq<string>)
    ensures (a + [x]) + u == a + ([x] + u)
  {
  }

  lemma UnseenCons(x: string, m: seq<string>, seen: seq<string>)
    ensures Unseen([x] + m, seen) == if x in seen then Unseen(m, seen) else [x] + Unseen(m, seen + [x])
  {
    assert ([x] + m)[0] == x && ([x] + m)[1..] == m;
  }

  /** The first step of `LinkChildren`: the links after the first GUID, and what it contributes. */
  lemma LinkFirst(l: Links, p: string, cs: seq<string>, inst: set<string>) returns (l1: Links, f0: seq<string>)
    requires p in l.children && NoDup(l.children[p]) && cs != []
    ensures f0 == (if cs[0] in inst then [cs[0]] else [])
    ensures InInstances(cs, inst) == f0 + InInstances(cs[1..], inst)
    ensures p in l1.children && NoDup(l1.children[p])
    ensures l1.children[p] == (if f0 == [cs[0]] && cs[0] !in l.children[p] then l.children[p] + [cs[0]] else l.children[p])
    ensures LinkChildren(l, p, cs, inst) == LinkChildren(l1, p, cs[1..], inst)
  {
    f0 := if cs[0] in inst then [cs[0]] else [];
    l1 := if cs[0] in inst then AddChild(l, p, Some(cs[0])) else l;
  }

  /**
   * The linking pass for one instance `p`: each of the GUIDs `cs` that names
   * an instance is added as a child, in order.
   */
  function LinkChildren(l: Links, p: string, cs: seq<string>, inst: set<string>): (r: Links)
    requires p in l.children
    ensures r.children.Keys == l.children.Keys
    ensures forall q :: q in l.children && q != p ==> r.children[q] == l.children[q]
    ensures |r.children[p]| >= |l.children[p]| && r.children[p][..|l.children[p]|] == l.children[p]
    ensures forall x :: x in r.children[p] <==> x in l.children[p] || (x in cs && x in inst)
    ensures NoDup(l.children[p]) ==> NoDup(r.children[p])
    ensures ParentsConsistent(l) ==> ParentsConsistent(r)
    decreases |cs|
  {
    if cs == [] then l
    else
      var l1 := if cs[0] in inst then AddChild(l, p, Some(cs[0])) else l;
      var r := LinkChildren(l1, p, cs[1..], inst);
      assert r.children[p][..|l.children[p]|] == r.children[p][..|l1.children[p]|][..|l.children[p]|];
      assert forall x :: x in cs <==> x == cs[0] || x in cs[1..];
      r
  }

  /** The linking pass over the instances in dictionary order. */
  function LinkAll(l: Links, nodes: TD.Nodes, order: seq<string>, inst: set<string>): (r: Links)
    requires forall k :: k in order ==> k in nodes
    requires inst <= l.children.Keys
    ensures r.children.Keys == l.children.Keys
    ensures forall q :: q in l.children && q !in order ==> r.children[q] == l.children[q]
    ensures NoDup(order) ==> forall p :: p in order && p in inst ==>
      forall x :: x in r.children[p] <==> x in l.children[p] || (x in nodes[p].childrenGuids && x in inst)
    ensures NoDup(order) ==> forall p :: p in order && p in inst && NoDup(l.children[p]) ==> NoDup(r.children[p])
    ensures NoDup(order) ==> forall p :: p in order && p in inst && NoDup(l.children[p]) ==>
      r.children[p] == l.children[p] + Unseen(InInstances(nodes[p].childrenGuids, inst), l.children[p])
    ensures ParentsConsistent(l) ==> ParentsConsistent(r)
    decreases |order|
  {
    if order == [] then l
    else
      var p := order[0];
      var l1 := if p in inst then LinkChildren(l, p, nodes[p].childrenGuids, inst) else l;
      assert p in inst && NoDup(l.children[p]) ==>
        l1.children[p] == l.children[p] + Unseen(InInstances(nodes[p].childrenGuids, inst), l.children[p]) by {
        if p in inst && NoDup(l.children[p]) { LinkChildrenOrder(l, p, nodes[p].childrenGuids, inst); }
      }
      assert forall k :: k in order <==> k == p || k in order[1..];
      assert NoDup(order) ==> p !in order[1..] && NoDup(order[1..]) by {
        if NoDup(order) {
          forall i, j | 0 <= i < j < |order[1..]| ensures order[1..][i] != order[1..][j] {
            assert order[i + 1] != order[j + 1];
          }
        }
      }
      LinkAll(l1, nodes, order[1..], inst)
  }

  /** Linking lists that start empty gives each instance the first occurrences of its instantiated children. */
  lemma LinkFromEmpty(l0: Links, nodes: TD.Nodes, order: seq<string>, inst: set<string>, l: Links)
    requires forall k :: k in order ==> k in nodes
    requires inst <= l0.children.Keys && NoDup(order)
    requires forall p :: p in inst ==> p in order && l0.children[p] == []
    requires l == LinkAll(l0, nodes, order, inst)
    ensures forall p :: p in inst ==> l.children[p] == FirstOccurrences(InInstances(nodes[p].childrenGuids, inst))
  {
  }

  /** The instances of a tree, their links, and the root instance if there is one. */
  datatype Built = Built(instances: set<string>, links: Links, root: Option<string>)

  /**
   * `BuildNodeTree` for `t`, whose node dictionary enumerates its keys in
   * `order` and whose node classes `known` resolves. Without a root GUID
   * nothing is built.
   */
  function BuildNodeTree(t: TD.TreeData, order: seq<string>, known: string -> bool): (r: Built)
    requires forall k :: k in order <==> k in t.allNodes
    requires NoDup(order)
    ensures t.rootNodeGuid == "" ==> r == Built({}, Links(map[], map[]), None)
    ensures t.rootNodeGuid != "" ==>
      && (forall k :: k in r.instances <==> k in t.allNodes && Creatable(t.allNodes[k], known))
      && r.links.children.Keys == r.instances
      && (r.root.Some? <==> t.rootNodeGuid in r.instances)
      && (r.root.Some? ==> r.root.value == t.rootNodeGuid)
      && ParentsConsistent(r.links)
      && forall p :: p in r.instances ==>
           && NoDup(r.links.children[p])
           && (forall x :: x in r.links.children[p] <==> x in t.allNodes[p].childrenGuids && x in r.instances)
           && r.links.children[p] == FirstOccurrences(InInstances(t.allNodes[p].childrenGuids, r.instances))
  {
    if t.rootNodeGuid == "" then Built({}, Links(map[], map[]), None)
    else
      var inst := set k | k in t.allNodes && Creatable(t.allNodes[k], known);
      var l0 := Links(map k | k in inst :: [], map[]);
      assert ParentsConsistent(l0);
      assert forall p :: p in inst ==> p in order && l0.children[p] == [] && NoDup(l0.children[p]);
      var l := LinkAll(l0, t.allNodes, order, inst);
      assert l.children.Keys == inst;
      LinkFromEmpty(l0, t.allNodes, order, inst, l);
      Built(inst, l, if t.rootNodeGuid in inst then Some(t.rootNodeGuid) else None)
  }
}
