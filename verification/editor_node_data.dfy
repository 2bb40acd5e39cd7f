/** The serialized description of one node of the editor's behaviour trees. */
module EditorNodeData {
  import opened Text

  datatype NodeType = Root | Composite | Decorator | Action | Condition

  /** Execution state recorded on a node; `Invalid` means "not executed yet". */
  datatype NodeState = Invalid | Running | Success | Failure

  /** How a composite may interrupt running work when its condition children change. */
  datatype AbortType = AbortNone | AbortSelf | AbortLowerPriority | AbortBoth

  /** The editor position (Unity's `Vector2`), kept only to be copied. */
  datatype Position = Position(x: real, y: real)

  /**
   * A node as stored in a tree asset. `null` strings are represented by "":
   * every consumer tests them with `IsNullOrEmpty`.
   */
  datatype NodeData = NodeData(
    guid: string,
    nodeType: NodeType,
    nodeName: string,
    nodeClassName: string,
    position: Position,
    childrenGuids: seq<string>,
    parentGuid: string,
    nodeState: NodeState,
    abortType: AbortType,
    description: string,
    customDataJson: string)

  /** The display name derived from a class name: every "Node" is removed. */
  function DisplayName(className: string): (r: string)
    ensures |r| <= |className|
    ensures Contains(className, "Node") ==> |r| <= |className| - 4
    ensures !Contains(className, "Node") ==> r == className
  {
    ReplaceByEmptyShortens(className, "Node");
    ReplaceAbsent(className, "Node", "");
    Replace(className, "Node", "")
  }

  /**
   * A fresh node of class `className`. The source draws a new GUID; here it is
   * the parameter `guid`.
   */
  function Create(nodeType: NodeType, className: string, pos: Position, guid: string): (r: NodeData)
    ensures r.guid == guid && r.nodeType == nodeType && r.position == pos
    ensures r.nodeClassName == className && r.nodeName == DisplayName(className)
    ensures r.childrenGuids == [] && r.parentGuid == ""
    ensures r.nodeState == Invalid && r.abortType == AbortNone
  {
    NodeData(guid, nodeType, DisplayName(className), className, pos, [], "", Invalid, AbortNone, "", "")
  }

  /** The usual naming convention: the display name of `XNode` is `X`. */
  lemma {:induction false} DisplayNameOfNodeClass(x: string)
    requires !Contains(x, "Node")
    ensures DisplayName(x + "Node") == x
    decreases |x|
  {
    if |x| == 0 {
      assert x + "Node" == "Node";
      assert StartsWith("Node", "Node");
      assert Replace("Node"[4..], "Node", "") == "";
    } else {
      var s := x + "Node";
      assert !StartsWith(s, "Node") by {
        if |x| >= 4 {
          assert s[..4] == x[..4];
          assert !StartsWith(x, "Node");
        } else {
          // the appended "Node" starts inside the first four characters
          assert s[|x|] == 'N' && "Node"[|x|] != 'N';
        }
      }
      assert !Contains(x[1..], "Node");
      DisplayNameOfNodeClass(x[1..]);
      assert s[1..] == x[1..] + "Node";
      assert [x[0]] + x[1..] == x;
    }
  }

  /** A copy for a new tree: every field but the execution state is kept, and that is reset. */
  function Clone(nd: NodeData): (r: NodeData)
    ensures r.nodeState == Invalid
    ensures r.(nodeState := nd.nodeState) == nd
  {
    nd.(nodeState := Invalid)
  }

  /** Cloning twice is cloning once, and a node that never ran is its own clone. */
  lemma CloneIdempotent(nd: NodeData)
    ensures Clone(Clone(nd)) == Clone(nd)
    ensures Clone(nd) == nd <==> nd.nodeState == Invalid
  {
  }
}
