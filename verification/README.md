# BTFramework behaviour trees in Dafny

This project models the two behaviour-tree engines of the BTFramework Unity
repository and the pure helpers of its node-view code generator. It states
their contracts and proves them.

- **The editor engine** (`Assets/BehaviorTreeEditor/Runtime`) has these parts:
  - node and tree data (`NodeData`, `TreeData`) with their editing operations and validation;
  - the typed blackboard (`BlackboardVariable`, `BlackboardData`);
  - `BuildNodeTree`, which links node instances from the data;
  - `BTNode.Evaluate` and the node classes Root, Sequence, Selector, Parallel, Repeater, Inverter, ConditionalAbort and CheckBlackboard;
  - the `BehaviorTree` tick with its abort scan (`CheckAbortConditions`, `CheckCompositeAbort`, `IsExecutingInSubtree`, `IsExecutingLowerPriorityBranch`, `PerformAbort`).

  An instance is named by its path of child positions from the root. The
  per-node runtime fields live in a `RunState` map keyed by path. Every
  operation that can raise in C# returns `Option`, with `None` for the
  exception.
- **The Framework engine** (`Assets/Framework/Common`) has these parts:
  - the `Node` life cycle (`Tick`, `Abort`, `Reset`, `OnStart`/`OnResume`/`OnAbort`);
  - the root, composite, decorator and action nodes;
  - `BehaviourTree` (its clock, `GetChildNodes`, `Dfs`) and `BehaviourTreeExecutor`;
  - the list-based `Blackboard` with its typed setters, getters and `Synchronize`.

  Nodes are an immutable recursive datatype. A tick returns the new node
  together with its state.
- **The code generator** (`Assets/BehaviorTreeEditor/Editor/CodeGen/BTNodeGenerator.cs`)
  contributes view-class and file naming, the category-to-base-class and
  category-to-colour tables, and `EscapeString`.

Leaf actions and conditions whose logic is not part of this model take their
outcome from an oracle keyed by the node's GUID. The wall clock (`Time.time`)
and the frame's delta time are parameters.

The abort scan (`Core/BehaviorTree.cs:166-180` and `234-238`) leaves a
composite's loop over its conditions after the first abort, but goes on with
the remaining composite instances; `EditorScheduler.Scan` does the same.

## Model

| member | source | states |
|---|---|---|
| EditorNodeData.DisplayName | Assets/BehaviorTreeEditor/Runtime/Data/NodeData.cs:101 | every "Node" is removed from the class name: a name without "Node" is kept, one with it is at least four characters shorter |
| EditorNodeData.DisplayNameOfNodeClass | Assets/BehaviorTreeEditor/Runtime/Data/NodeData.cs:101 | a class named `XNode` (X without "Node") is displayed as `X` |
| EditorNodeData.Create | Assets/BehaviorTreeEditor/Runtime/Data/NodeData.cs:94-105 | a new node carries the given type, class, position and GUID, the display name, no children, no parent, state `Invalid`, abort type `None` |
| EditorNodeData.Clone | Assets/BehaviorTreeEditor/Runtime/Data/NodeData.cs:110-126 | the copy equals the original in every field except the runtime state, which is reset to `Invalid` |
| EditorBlackboard.GetValue | Assets/BehaviorTreeEditor/Runtime/Data/BlackboardData.cs:75-90 | a variable reports the field that matches its declared type; a string variable reports null exactly when its string is null |
| EditorBlackboard.ToInt32 | Assets/BehaviorTreeEditor/Runtime/Data/BlackboardData.cs:95-127 | `Convert.ToInt32` of null is 0, of an int is itself, of a bool is 1 or 0 |
| EditorBlackboard.ToBoolean | Assets/BehaviorTreeEditor/Runtime/Data/BlackboardData.cs:95-127 | `Convert.ToBoolean` of null is false, of a bool is itself, of an int is "non-zero" |
| EditorBlackboard.SetValue | Assets/BehaviorTreeEditor/Runtime/Data/BlackboardData.cs:95-127 | a set keeps the name and the type and touches only the field of the declared type; object-typed variables always accept the value |
| EditorBlackboard.SetThenGet | Assets/BehaviorTreeEditor/Runtime/Data/BlackboardData.cs:75-127 | setting a value of the declared type and reading back gives that value; a string variable set to null reads back as the empty string |
| EditorBlackboard.GetVariable | Assets/BehaviorTreeEditor/Runtime/Data/BlackboardData.cs:167-170 | a variable is found exactly when one has the name, and the first one with the name is returned |
| EditorBlackboard.GetValueAs | Assets/BehaviorTreeEditor/Runtime/Data/BlackboardData.cs:175-185 | a missing name gives the type's default; otherwise the stored value when it has the requested type, else the default |
| EditorBlackboard.SetVariable | Assets/BehaviorTreeEditor/Runtime/Data/BlackboardData.cs:190-204 | a missing name changes nothing and fires no event; otherwise the first variable with the name is set and the change event carries its name and new value |
| EditorBlackboard.SetVariableThenGet | Assets/BehaviorTreeEditor/Runtime/Data/BlackboardData.cs:175-204 | with unique names, setting an int variable and reading it back as int gives the value set |
| EditorBlackboard.AddVariable | Assets/BehaviorTreeEditor/Runtime/Data/BlackboardData.cs:209-222 | an existing name leaves the blackboard as it is; a new name appends a fresh variable of the given type; afterwards the name exists |
| EditorBlackboard.AddVariableKeepsNamesUnique | Assets/BehaviorTreeEditor/Runtime/Data/BlackboardData.cs:209-222 | adding preserves uniqueness of variable names |
| EditorBlackboard.RemoveVariable | Assets/BehaviorTreeEditor/Runtime/Data/BlackboardData.cs:227-230 | afterwards no variable has the name; every other variable stays and nothing new appears |
| EditorBlackboard.RemoveNamedAppend | Assets/BehaviorTreeEditor/Runtime/Data/BlackboardData.cs:227-230 | removal is a filter: over a concatenation it acts on each part separately, which fixes the order of what is kept |
| EditorBlackboard.RemoveNamedCounts | Assets/BehaviorTreeEditor/Runtime/Data/BlackboardData.cs:227-230 | each variable with another name is kept exactly as often as it occurred, and none with the name is kept |
| EditorBlackboard.RemoveVariableKeepsOrder | Assets/BehaviorTreeEditor/Runtime/Data/BlackboardData.cs:227-230 | removing from the whole list equals removing from any prefix and from the rest and joining the two, so the survivors keep their order |
| EditorBlackboard.Clear | Assets/BehaviorTreeEditor/Runtime/Data/BlackboardData.cs:243-246 | afterwards no name is present |
| EditorBlackboard.CloneIsIndependentCopy | Assets/BehaviorTreeEditor/Runtime/Data/BlackboardData.cs:251-259 | a cloned blackboard holds equal variables, so every lookup gives the same answer |
| EditorTreeData.GetNodeData | Assets/BehaviorTreeEditor/Runtime/Data/TreeData.cs:43-47 | a node is returned exactly when the GUID is non-empty and present, and it is the stored node |
| EditorTreeData.RemoveNode | Assets/BehaviorTreeEditor/Runtime/Data/TreeData.cs:85-107 | an unknown GUID changes nothing; otherwise the node is gone, it is detached from its parent, and nodes only disappear |
| EditorTreeData.RemoveNodeRemovesSubtree | Assets/BehaviorTreeEditor/Runtime/Data/TreeData.cs:85-107 | a known node disappears exactly when it is reachable from the removed node through child lists |
| EditorTreeData.RemoveLeaf | Assets/BehaviorTreeEditor/Runtime/Data/TreeData.cs:85-107 | removing a childless node only detaches it from its parent and deletes it |
| EditorTreeData.RemoveNodeThins | Assets/BehaviorTreeEditor/Runtime/Data/TreeData.cs:85-107 | no surviving node's child list gains an entry: each is a sub-multiset of its old list |
| EditorTreeData.RemoveNodeLeavesParent | Assets/BehaviorTreeEditor/Runtime/Data/TreeData.cs:93-97 | if the parent survives, its list holds at most the old list minus one occurrence of the node, so a node listed once is no longer in it |
| EditorTreeData.RemoveNodeEnoughFuel | Assets/BehaviorTreeEditor/Runtime/Data/TreeData.cs:85-107 | the recursion finishes whenever every child path from the node is no longer than the fuel |
| EditorTreeData.RemoveNodeAcyclicEnds | Assets/BehaviorTreeEditor/Runtime/Data/TreeData.cs:85-107 | from a node with no cycle below it (what `Validate` asks of the root), fuel above the node count always suffices |
| EditorTreeData.LongWalkCycles | Assets/BehaviorTreeEditor/Runtime/Data/TreeData.cs:235-250 | a child path longer than the node count contains a cycle in the sense of the cycle check |
| EditorTreeData.RemoveTreeNode | Assets/BehaviorTreeEditor/Runtime/Data/TreeData.cs:85-107 | the tree's name, description and root are kept, and its node set becomes `RemoveNode`'s result |
| EditorTreeData.AddNode | Assets/BehaviorTreeEditor/Runtime/Data/TreeData.cs:68-80 | null data or an empty GUID changes nothing; otherwise the node is stored under its GUID, replacing any earlier one |
| EditorTreeData.AddThenGet | Assets/BehaviorTreeEditor/Runtime/Data/TreeData.cs:43-80 | an added node is found under its GUID and every other GUID finds what it found before |
| EditorTreeData.ConnectNodes | Assets/BehaviorTreeEditor/Runtime/Data/TreeData.cs:112-134 | with either GUID unknown nothing changes; otherwise the child leaves its old parent's list, is appended to the new parent's list and records the new parent |
| EditorTreeData.ReconnectMovesToEnd | Assets/BehaviorTreeEditor/Runtime/Data/TreeData.cs:112-134 | reconnecting a child to its own parent moves it to the end of the child list |
| EditorTreeData.DisconnectNodes | Assets/BehaviorTreeEditor/Runtime/Data/TreeData.cs:139-153 | with either GUID unknown nothing changes; otherwise the child leaves the parent's list and its parent is cleared |
| EditorTreeData.DisconnectUndoesConnect | Assets/BehaviorTreeEditor/Runtime/Data/TreeData.cs:112-153 | connecting an unparented node and disconnecting it again restores the tree |
| EditorTreeData.GetNodesByType | Assets/BehaviorTreeEditor/Runtime/Data/TreeData.cs:158-161 | the result holds exactly the stored nodes of the requested type, as a set: equal nodes stored under two GUIDs appear once |
| EditorTreeData.Clone | Assets/BehaviorTreeEditor/Runtime/Data/TreeData.cs:166-183 | same name, description, root and GUIDs, with every node cloned |
| EditorTreeData.Create | Assets/BehaviorTreeEditor/Runtime/Data/TreeData.cs:188-203 | a new tree holds exactly one node, the root, created as a `RootNode` at the origin |
| EditorTreeData.HasCycleIffCycleWalk | Assets/BehaviorTreeEditor/Runtime/Data/TreeData.cs:235-250 | the cycle search succeeds exactly when some child path from the node returns to a node on the path or to an already visited node |
| EditorTreeData.Validate | Assets/BehaviorTreeEditor/Runtime/Data/TreeData.cs:208-233 | each error is reported exactly when its condition holds (missing root, unknown root, cycle reachable from the root), and none otherwise |
| EditorTreeData.CreateIsValid | Assets/BehaviorTreeEditor/Runtime/Data/TreeData.cs:188-233 | a freshly created tree validates |
| EditorTreeData.CloneValidatesAlike | Assets/BehaviorTreeEditor/Runtime/Data/TreeData.cs:166-233 | a clone validates exactly as its original |
| EditorTreeData.SharedChildIsNoCycle | Assets/BehaviorTreeEditor/Runtime/Data/TreeData.cs:235-250 | a child shared by two parents is not a cycle, because the visited set is per path; a self-loop is a cycle |
| EditorConditions.DefaultCheck | Assets/BehaviorTreeEditor/Runtime/Nodes/CheckBlackboardNode.cs:29-52 | a new check compares a bool variable for equality with false |
| EditorConditions.CompareNumeric | Assets/BehaviorTreeEditor/Runtime/Nodes/CheckBlackboardNode.cs:90-102 | every operator is decided by the strict order alone: `Equal` when neither number is below the other, `NotEqual` when one is, the non-strict orders as the negated strict ones |
| EditorConditions.CompareNumericDuals | Assets/BehaviorTreeEditor/Runtime/Nodes/CheckBlackboardNode.cs:90-102 | `NotEqual` is the complement of `Equal`, `LessThan` mirrors `GreaterThan`, each non-strict order negates the opposite strict one, and `Equal` is both non-strict orders |
| EditorConditions.CompareInt | Assets/BehaviorTreeEditor/Runtime/Nodes/CheckBlackboardNode.cs:67-102 | the corrected int comparison is the exact comparison of the two integers |
| EditorConditions.CompareValues | Assets/BehaviorTreeEditor/Runtime/Nodes/CheckBlackboardNode.cs:67-88 | a bool compares for equality, an int by the operator; a string compares for equality under `Equal` and for inequality under every other operator; any other type is false |
| EditorConditions.CheckOutcome | Assets/BehaviorTreeEditor/Runtime/Nodes/CheckBlackboardNode.cs:54-65 | the check ends at once; it succeeds exactly when the blackboard is there, the variable is found, and the comparison holds |
| EditorConditions.CheckOutcomeDependsOnlyOnVariable | Assets/BehaviorTreeEditor/Runtime/Nodes/CheckBlackboardNode.cs:54-65 | two blackboards that agree on the watched variable give the same outcome |
| EditorConditions.EvaluateCondition | Assets/BehaviorTreeEditor/Runtime/Nodes/ConditionalAbortNode.cs:65-89 | without a watched name or blackboard the condition holds and nothing is remembered; otherwise the value is remembered and its truthiness decides |
| EditorConditions.WatchedBoolIsCondition | Assets/BehaviorTreeEditor/Runtime/Nodes/ConditionalAbortNode.cs:65-89 | a missing variable makes the condition false; a bool variable's value is the condition |
| EditorConditions.ApproximateEqualityMergesInts | Assets/BehaviorTreeEditor/Runtime/Nodes/CheckBlackboardNode.cs:90-102 | as written, 2000000 `Equal` 2000001 holds and `NotEqual` fails, while the integers differ |
| EditorConditions.FloatConversionHidesOrder | Assets/BehaviorTreeEditor/Runtime/Nodes/CheckBlackboardNode.cs:74-75 | as written, 16777217 converts to the float 16777216, so 16777217 > 16777216 is reported false |
| EditorConditions.CompareIntAgreesOnSmallInts | Assets/BehaviorTreeEditor/Runtime/Nodes/CheckBlackboardNode.cs:74-102 | for ordering operators and integers of magnitude at most 2^24, the comparison as written agrees with the exact one |
| EditorBuild.AddChild | Assets/BehaviorTreeEditor/Runtime/Core/BTNode.cs:254-261 | null or an existing child changes nothing; otherwise the list becomes the old list followed by the child, and the child's parent is recorded whatever it was; other lists and parents are unchanged; no duplicates and parent consistency are kept |
| EditorBuild.RemoveChild | Assets/BehaviorTreeEditor/Runtime/Core/BTNode.cs:266-273 | a missing child changes nothing; otherwise the list loses the child's first occurrence and keeps the rest in order, the child's parent link is dropped, and no other list or parent link changes |
| EditorBuild.AddThenRemoveChild | Assets/BehaviorTreeEditor/Runtime/Core/BTNode.cs:254-273 | adding a new child and removing it restores the child lists and leaves the child unparented |
| EditorBuild.LinkAll | Assets/BehaviorTreeEditor/Runtime/Core/BehaviorTree.cs:86-98 | after linking, each instance's children are its data's child GUIDs that have instances, without duplicates; the new ones follow the list it had, in `childrenGuids` order, each at its first occurrence; parent links stay consistent |
| EditorBuild.LinkChildrenOrder | Assets/BehaviorTreeEditor/Runtime/Core/BehaviorTree.cs:91-97 | linking one node's child GUIDs appends, in list order, each GUID that has an instance and is not yet a child; repeats and GUIDs without an instance are skipped |
| EditorBuild.LinkFromEmpty | Assets/BehaviorTreeEditor/Runtime/Core/BehaviorTree.cs:86-98 | starting from empty child lists, each instance's children are exactly the first occurrences of its instantiated child GUIDs, in `childrenGuids` order |
| EditorBuild.BuildNodeTree | Assets/BehaviorTreeEditor/Runtime/Core/BehaviorTree.cs:56-105 | no root GUID builds nothing; otherwise exactly the creatable nodes get instances, each linked to the first occurrences of the instantiated children its data lists, in `childrenGuids` order, and the root is the root GUID's instance when there is one |
| EditorRuntime.Put | Assets/BehaviorTreeEditor/Runtime/Core/BTNode.cs:29-34 | a node's runtime record is replaced and every other node's is kept |
| EditorRuntime.WriteState | Assets/BehaviorTreeEditor/Runtime/Core/BTNode.cs:29-34 | setting `State` stores it in the node data; without data the state reads `Invalid`; nothing else changes |
| EditorRuntime.Reset | Assets/BehaviorTreeEditor/Runtime/Core/BTNode.cs:241-249 | every node in the subtree is unstarted with state `Invalid` and its per-class fields reset; nothing outside the subtree changes |
| EditorRuntime.ResetQuiets | Assets/BehaviorTreeEditor/Runtime/Core/BTNode.cs:241-249 | after a reset no node of the subtree is started |
| EditorRuntime.Abort | Assets/BehaviorTreeEditor/Runtime/Core/BTNode.cs:214-228 | a node that is not running is left alone; a running one runs `OnStop`, gets state `Invalid` and is no longer started, and its running descendants are aborted the same way; nothing outside the subtree changes |
| EditorRuntime.ExitRt | Assets/BehaviorTreeEditor/Runtime/Core/BTNode.cs:206-209 | on exit the node is unstarted, the per-class exit is done, and the state and the remembered watch are kept |
| EditorRuntime.EnterRt | Assets/BehaviorTreeEditor/Runtime/Nodes/SequenceNode.cs:15-18 | each class's `OnEnter`: Sequence and Selector (SelectorNode.cs:15-18) restart at child 0; Parallel (ParallelNode.cs:28-35) records every child as running; Repeater (RepeaterNode.cs:23-26) zeroes its count; ConditionalAbort (ConditionalAbortNode.cs:23-31) sets its condition flag to the condition evaluated on the watched value it then holds |
| EditorRuntime.SetCurrent | Assets/BehaviorTreeEditor/Runtime/Core/BehaviorTree.cs:357-361 | the current running node becomes the child and a notification with its state is appended |
| EditorRuntime.Entered | Assets/BehaviorTreeEditor/Runtime/Core/BTNode.cs:171-175 | a node not yet started is entered once and marked started; a started node is left as it is |
| EditorRuntime.Evaluate | Assets/BehaviorTreeEditor/Runtime/Core/BTNode.cs:168-188 | evaluation touches only the node's subtree; the result is stored as the state; the node stays started exactly when it returns `Running`, and is exited otherwise |
| EditorRuntime.OnEvaluate | Assets/BehaviorTreeEditor/Runtime/Core/BTNode.cs:168-188 | a class's `OnEvaluate` touches only its subtree and leaves its own started flag and state alone |
| EditorRuntime.RootFollowsFirstChild | Assets/BehaviorTreeEditor/Runtime/Core/BTNode.cs:302-308 | a root node returns the state its first child ends in |
| EditorRuntime.Invert | Assets/BehaviorTreeEditor/Runtime/Nodes/InverterNode.cs:13-27 | success and failure swap, and running stays running |
| EditorRuntime.InverterInverts | Assets/BehaviorTreeEditor/Runtime/Nodes/InverterNode.cs:13-27 | an inverter returns the inverse of the state its child ends in |
| EditorRuntime.ScanEvaluates | Assets/BehaviorTreeEditor/Runtime/Nodes/SequenceNode.cs:20-49 | a sequence or selector resumes at its remembered child; the children it passes all passed; it stops at the first child that runs or gives the deciding state, making a running child current; all passed gives the other state |
| EditorRuntime.Decide | Assets/BehaviorTreeEditor/Runtime/Nodes/ParallelNode.cs:74-89 | the success policy wins over the failure policy; running when neither is met and a child runs; otherwise success |
| EditorRuntime.ParallelEval | Assets/BehaviorTreeEditor/Runtime/Nodes/ParallelNode.cs:37-90 | a too-short child-state list raises; otherwise only still-running children are evaluated and the policies decide on the new states |
| EditorRuntime.ParallelFreshTicksEveryChild | Assets/BehaviorTreeEditor/Runtime/Nodes/ParallelNode.cs:28-90 | a parallel node entered afresh evaluates every child and decides by its policies on the states the children end in |
| EditorRuntime.EmptyNodeOutcome | Assets/BehaviorTreeEditor/Runtime/Nodes/ParallelNode.cs:39-40 | a composite or decorator without children finishes at once: parallel succeeds, every other one fails |
| EditorRuntime.RepeaterNeverFails | Assets/BehaviorTreeEditor/Runtime/Nodes/RepeaterNode.cs:28-57 | a repeater only runs or succeeds; an infinite one only runs; a finite one entered afresh that succeeds leaves its child's subtree reset |
| EditorRuntime.ConditionalAbortEval | Assets/BehaviorTreeEditor/Runtime/Nodes/ConditionalAbortNode.cs:33-60 | the watched value is remembered; when the condition changed and the abort rule fires, every child is aborted and the node returns the new condition; otherwise it returns its first child's state |
| EditorRuntime.ShouldAbortLocal | Assets/BehaviorTreeEditor/Runtime/Nodes/ConditionalAbortNode.cs:94-112 | the abort rule reads only the children's states |
| EditorRuntime.CheckFinishesAtOnce | Assets/BehaviorTreeEditor/Runtime/Nodes/CheckBlackboardNode.cs:54-65 | a blackboard check always finishes in the tick that enters it, with the comparison's outcome |
| EditorScheduler.IsExecutingInSubtree | Assets/BehaviorTreeEditor/Runtime/Core/BehaviorTree.cs:262-273 | true exactly when there is a current running node inside the composite's subtree |
| EditorScheduler.IsExecutingLowerPriorityBranch | Assets/BehaviorTreeEditor/Runtime/Core/BehaviorTree.cs:278-302 | true exactly when the composite has a parent and the current running node lies in a later sibling's subtree |
| EditorScheduler.SubtreeAndLowerPriorityExclusive | Assets/BehaviorTreeEditor/Runtime/Core/BehaviorTree.cs:262-302 | the current running node is never both inside the composite and in a later sibling branch |
| EditorScheduler.ShouldAbortFor | Assets/BehaviorTreeEditor/Runtime/Core/BehaviorTree.cs:199-231 | `Self` aborts on success turning to failure while running inside; `LowerPriority` on success while a later sibling branch runs; `Both` tries the first test, then the second |
| EditorScheduler.ConditionChildren | Assets/BehaviorTreeEditor/Runtime/Core/BehaviorTree.cs:190-192 | exactly the child positions whose data says `Condition`, in increasing order |
| EditorScheduler.PerformAbort | Assets/BehaviorTreeEditor/Runtime/Core/BehaviorTree.cs:307-327 | after an abort no node of the whole tree is started; the current node and the notifications are kept |
| EditorScheduler.ProbeCommits | Assets/BehaviorTreeEditor/Runtime/Core/BehaviorTree.cs:245-257 | the probe of a condition stores the state it evaluated to; it does not restore the previous one |
| EditorScheduler.CheckCompositeAbort | Assets/BehaviorTreeEditor/Runtime/Core/BehaviorTree.cs:185-240 | a composite without condition children is not touched; an abort names a condition child and leaves the whole tree quiet |
| EditorScheduler.ScanAppend | Assets/BehaviorTreeEditor/Runtime/Core/BehaviorTree.cs:166-180 | scanning two runs of instances is scanning the first and then the second from the resulting state |
| EditorScheduler.ScanWithoutWatchersIsIdle | Assets/BehaviorTreeEditor/Runtime/Core/BehaviorTree.cs:166-180 | when no scanned instance is a composite with an abort type, the scan changes nothing |
| EditorScheduler.Tick | Assets/BehaviorTreeEditor/Runtime/Core/BehaviorTree.cs:146-161 | without a root the tick fails and changes nothing; otherwise the root's result is stored as its state, the root stays started exactly when running, and only the run state changes |
| EditorScheduler.TickWithoutWatchersEvaluatesRoot | Assets/BehaviorTreeEditor/Runtime/Core/BehaviorTree.cs:154-158 | when no instance on the scan order watches for aborts, a tick is exactly the root's evaluation on the stored run state |
| EditorScheduler.TickAfterAbortEvaluatesQuietTree | Assets/BehaviorTreeEditor/Runtime/Core/BehaviorTree.cs:154-158 | the abort scan runs before the root: when a composite aborts and no watching composite follows it on the scan order, the root is evaluated from a run state in which the whole tree is quiet |
| EditorScheduler.Cleanup | Assets/BehaviorTreeEditor/Runtime/Core/BehaviorTree.cs:366-376 | the instances, root and current running node are dropped, and the node data and blackboard stay |
| EditorScheduler.CleanupThenTickFails | Assets/BehaviorTreeEditor/Runtime/Core/BehaviorTree.cs:146-161 | after cleanup a tick fails and changes nothing |
| FwBlackboard.FindKeyType | Assets/Framework/Common/Blackboard/Blackboard.cs:42-64 | the first parameter with the key and the type, or -1 exactly when there is none |
| FwBlackboard.ContainsParameter | Assets/Framework/Common/Blackboard/Blackboard.cs:128-131 | true exactly when some parameter has the key |
| FwBlackboard.GetOnlyKey | Assets/Framework/Common/Blackboard/Blackboard.cs:16-31 | the key returned is not in use, and an unused key is kept as it is |
| FwBlackboard.AddParameter | Assets/Framework/Common/Blackboard/Blackboard.cs:16-31 | the parameter is appended under an unused key, the earlier parameters are kept, and unique keys stay unique |
| FwBlackboard.AddParameterKeyIsFewestSuffixes | Assets/Framework/Common/Blackboard/Blackboard.cs:16-31 | the new key is the requested key with the fewest "_0" suffixes that make it unused |
| FwBlackboard.RemoveParameter | Assets/Framework/Common/Blackboard/Blackboard.cs:32-40 | an absent key changes nothing; otherwise only the first parameter with the key goes and the order is kept; with unique keys the key is gone afterwards |
| FwBlackboard.WriteValue | Assets/Framework/Common/Blackboard/Blackboard.cs:42-64 | the stored parameter keeps its key and type and takes the one value field of its type |
| FwBlackboard.SetParameter | Assets/Framework/Common/Blackboard/Blackboard.cs:42-64 | no parameter with the key and type changes nothing; otherwise only that parameter's value changes, and the key/type layout is kept |
| FwBlackboard.SetIntParameter | Assets/Framework/Common/Blackboard/Blackboard.cs:66-78 | only an int parameter with the key takes the value; anything else leaves the blackboard as it is |
| FwBlackboard.SetFloatParameter | Assets/Framework/Common/Blackboard/Blackboard.cs:80-94 | only a float parameter with the key takes the value |
| FwBlackboard.SetBoolParameter | Assets/Framework/Common/Blackboard/Blackboard.cs:96-110 | only a bool parameter with the key takes the value |
| FwBlackboard.SetStringParameter | Assets/Framework/Common/Blackboard/Blackboard.cs:112-126 | only a string parameter with the key takes the value |
| FwBlackboard.GetParameter | Assets/Framework/Common/Blackboard/Blackboard.cs:134-143 | null exactly when the key is absent; otherwise the first stored parameter with the key, whatever its type |
| FwBlackboard.GetIntParameter | Assets/Framework/Common/Blackboard/Blackboard.cs:144-154 | 0 for an absent key, otherwise the int field of the found parameter, whatever its type |
| FwBlackboard.GetFloatParameter | Assets/Framework/Common/Blackboard/Blackboard.cs:156-166 | 0 for an absent key, otherwise the float field of the found parameter |
| FwBlackboard.GetBoolParameter | Assets/Framework/Common/Blackboard/Blackboard.cs:168-178 | false for an absent key, otherwise the bool field of the found parameter |
| FwBlackboard.GetStringParameter | Assets/Framework/Common/Blackboard/Blackboard.cs:180-190 | null for an absent key, otherwise the string field of the found parameter |
| FwBlackboard.SetIntThenGetInt | Assets/Framework/Common/Blackboard/Blackboard.cs:66-78 | with unique keys, an int set on an int parameter reads back |
| FwBlackboard.SetIntOnOtherTypeIsRefused | Assets/Framework/Common/Blackboard/Blackboard.cs:66-78 | an int set on a parameter of another type is ignored |
| FwBlackboard.LastMatch | Assets/Framework/Common/Blackboard/Blackboard.cs:192-201 | the last source parameter with the key and type, or none exactly when no source parameter has them |
| FwBlackboard.ApplyAllLastWins | Assets/Framework/Common/Blackboard/Blackboard.cs:192-201 | after applying a list of parameters, the first target parameter with each key and type holds the value of the last matching source parameter; every other target parameter is unchanged |
| FwBlackboard.SynchronizeIsApplyAll | Assets/Framework/Common/Blackboard/Blackboard.cs:192-201 | `Synchronize` applies the source's parameters to the target one after another |
| FwBlackboard.SynchronizeBackRestores | Assets/Framework/Common/Blackboard/Blackboard.cs:192-201 | with unique keys on both boards, synchronizing a board into another and straight back gives the first board unchanged |
| FwNodes.Reset | Assets/Framework/Common/BTFramework/Node/Node.cs:58-65 | a reset clears only the started flag |
| FwNodes.Abort | Assets/Framework/Common/BTFramework/Node/Node.cs:120-152 | an unstarted or already aborted node is untouched; with `stopWhenAbort` a node stops with `Failure`, otherwise it is marked aborted; afterwards it is quiescent |
| FwNodes.AbortChild | Assets/Framework/Common/BTFramework/Node/RootNode.cs:23-26 | a missing child stays missing and a present one is aborted |
| FwNodes.OnAbort | Assets/Framework/Common/BTFramework/Node/Composite/CompositeNode.cs:26-29 | the class's abort hook keeps the node's life cycle and identity, and only time gates change their timers; a fixed block counts the elapsed time against its working duration (corrected, see Findings) |
| FwNodes.FixedOnAbort | Assets/Framework/Common/BTFramework/Node/Decorator/FixedDelayNode.cs:15-23 | recording across an abort keeps the deadline; otherwise the time already waited is taken off the remaining duration |
| FwNodes.FixedOnResume | Assets/Framework/Common/BTFramework/Node/Decorator/FixedDelayNode.cs:24-31 | resuming with recording keeps the deadline; otherwise the remaining duration counts from the resume time |
| FwNodes.FixedAbortResumeDeadline | Assets/Framework/Common/BTFramework/Node/Decorator/FixedDelayNode.cs:15-31 | across an abort at `a` and a resume at `b`, a recording gate keeps its deadline and a non-recording one moves it by `b - a` |
| FwNodes.OnResume | Assets/Framework/Common/BTFramework/Node/Decorator/TimeBlockNode.cs:34-41 | resuming changes nothing for any node class but the time gates; a fixed block resumes on its working duration (corrected, see Findings) |
| FwNodes.OnStart | Assets/Framework/Common/BTFramework/Node/Composite/SequenceNode.cs:14-17 | each class's start hook: ordered composites forget their position, parallel ones their completed set, time gates reset their timers, a child tree is created |
| FwNodes.ChildTreeStartReuses | Assets/Framework/Common/BTFramework/Node/Action/ChildTreeNode.cs:17-24 | a child tree already created is not created again |
| FwNodes.FixedBlockAbortShortensLaterRuns | Assets/Framework/Common/BTFramework/Node/Decorator/FixedBlockNode.cs:21-29 | as written, a 5-second block aborted after 2 seconds holds only 3 seconds when started again |
| FwNodes.FixedBlockStartIsFullDuration | Assets/Framework/Common/BTFramework/Node/Decorator/FixedBlockNode.cs:15-19 | in the corrected node every start holds the block for the full configured duration, whatever aborts came before |
| FwNodes.RootAddChildNode | Assets/Framework/Common/BTFramework/Node/RootNode.cs:45-50 | the child replaces any earlier one and gets execute order 1 |
| FwNodes.RootRemoveChildNode | Assets/Framework/Common/BTFramework/Node/RootNode.cs:51-60 | removal succeeds exactly when the node is the child, and then leaves the root empty |
| FwNodes.Renumber | Assets/Framework/Common/BTFramework/Node/Composite/CompositeNode.cs:37-47 | children are numbered 1, 2, … in order, and nothing else about them changes |
| FwNodes.CompositeAddChildNode | Assets/Framework/Common/BTFramework/Node/Composite/CompositeNode.cs:31-36 | the child is appended with the next execute order, and a numbered list stays numbered |
| FwNodes.CompositeRemoveChildNode | Assets/Framework/Common/BTFramework/Node/Composite/CompositeNode.cs:37-47 | succeeds exactly when the node is a child; the first occurrence goes, the rest keep their order and are renumbered |
| FwNodes.AddThenRemoveChildNode | Assets/Framework/Common/BTFramework/Node/Composite/CompositeNode.cs:31-47 | adding a child to a numbered composite and removing it gives back the same children |
| FwTick.Tick | Assets/Framework/Common/BTFramework/Node/Node.cs:67-118 | a tick keeps the node's identity, and its life cycle afterwards matches the returned state: running nodes stay started, finished ones are stopped |
| FwTick.OnTick | Assets/Framework/Common/BTFramework/Node/Node.cs:173-176 | each class's tick keeps the node's identity and settings; the two parallel classes run with the corrected abort (see Findings) |
| FwTick.RootTick | Assets/Framework/Common/BTFramework/Node/RootNode.cs:32-35 | a root without a child succeeds; otherwise it returns its child's tick result |
| FwTick.StartIndex | Assets/Framework/Common/BTFramework/Node/Composite/SequenceNode.cs:18-50 | a stateless composite restarts at 0; otherwise it resumes at the remembered child |
| FwTick.AbortRemembered | Assets/Framework/Common/BTFramework/Node/Composite/SequenceNode.cs:18-50 | a stateless composite that stops at a different child aborts the one it remembered; otherwise nothing is aborted |
| FwTick.SequenceTick | Assets/Framework/Common/BTFramework/Node/Composite/SequenceNode.cs:18-50 | the all-passed state comes exactly when every child from the start position passed; AwaitAllSuccess never fails and AwaitAllFailure never succeeds; a running sequence remembers its running child |
| FwTick.ParallelTick | Assets/Framework/Common/BTFramework/Node/Composite/ParallelSequenceNode.cs:19-47 | completed children are not ticked again; the deciding state comes exactly when a child gave it, the other state exactly when all completed without it; once the node ends, the corrected variant leaves every child that was not already complete quiescent; the variant as written (aborting the completed children) changes no child, so a child not completed is still running |
| FwTick.ParallelEndsQuiet | Assets/Framework/Common/BTFramework/Node/Composite/ParallelSelectorNode.cs:20-48 | a corrected parallel node keeps its completed children stopped and ends with no child left running |
| FwTick.ParallelAsWrittenLeavesChildRunning | Assets/Framework/Common/BTFramework/Node/Composite/ParallelSequenceNode.cs:38-42 | as written, a parallel sequence that fails leaves a running child started and not aborted |
| FwTick.Invert | Assets/Framework/Common/BTFramework/Node/Decorator/ReverseNode.cs:8-17 | success and failure swap, and running stays running |
| FwTick.ReverseTick | Assets/Framework/Common/BTFramework/Node/Decorator/ReverseNode.cs:8-17 | a reverse node without a child raises; otherwise it returns the inverse of its child's new state |
| FwTick.TimeBlockTick | Assets/Framework/Common/BTFramework/Node/Decorator/TimeBlockNode.cs:42-48 | the timer advances by the delta; at or past the duration the node succeeds without ticking the child, before it the child is ticked and the node runs |
| FwTick.TimeDelayTick | Assets/Framework/Common/BTFramework/Node/Decorator/TimeDelayNode.cs:40-48 | the timer advances by the delta; before the delay the node runs without ticking the child, after it the child's result is returned |
| FwTick.FixedDelayTick | Assets/Framework/Common/BTFramework/Node/Decorator/FixedDelayNode.cs:38-45 | before the wall-clock deadline the node runs; after it the child's result is returned |
| FwTick.FixedBlockTick | Assets/Framework/Common/BTFramework/Node/Decorator/FixedBlockNode.cs:38-47 | before the deadline the child is ticked and the node runs; after it the node succeeds |
| FwTick.ChildTreeTick | Assets/Framework/Common/BTFramework/Node/Action/ChildTreeNode.cs:26-32 | the sub-tree is ticked on the synchronized copy of the blackboard and its result is returned |
| FwTick.ChildTreePullsBack | Assets/Framework/Common/BTFramework/Node/Action/ChildTreeNode.cs:30 | after the tick, a parent parameter that is the first of its key and type holds the value of the last sub-board parameter with that key and type; every other parent parameter keeps its value, and the parent board keeps its layout |
| FwTick.ChildTreeNoWriteKeepsBoard | Assets/Framework/Common/BTFramework/Node/Action/ChildTreeNode.cs:28-30 | with unique keys, a sub-tree that writes nothing to its blackboard gives the parent its blackboard back unchanged |
| FwTick.StartOrResumeIgnoresDelta | Assets/Framework/Common/BTFramework/Node/Node.cs:67-118 | the tick that starts or resumes a node sees a delta time of 0 |
| FwTick.AbortThenTickResumes | Assets/Framework/Common/BTFramework/Node/Node.cs:67-152 | without `stopWhenAbort` an abort keeps the node started, and the next tick resumes it where it was |
| FwTick.AbortWithStopRestarts | Assets/Framework/Common/BTFramework/Node/Node.cs:67-152 | with `stopWhenAbort` an abort stops the node with `Failure`, and the next tick starts it afresh |
| FwTick.TimeGateAbortResume | Assets/Framework/Common/BTFramework/Node/Decorator/TimeBlockNode.cs:25-41 | a time gate recording across an abort counts the tree time spent aborted; one that does not ignores it |
| FwTree.TreeStateOf | Assets/Framework/Common/BTFramework/BehaviourTree.cs:127-138 | the root's result maps one-to-one onto the running, success and failure tree states |
| FwTree.Tick | Assets/Framework/Common/BTFramework/BehaviourTree.cs:127-138 | a missing root raises; otherwise the clock advances by the delta first, the root is ticked with the new time, and its result is the tree state |
| FwTree.GetChildNodes | Assets/Framework/Common/BTFramework/BehaviourTree.cs:103-125 | the child of a root or decorator if set, a composite's children in order, nothing otherwise |
| FwTree.DfsFollowsGetChildNodes | Assets/Framework/Common/BTFramework/BehaviourTree.cs:103-166 | the walk visits a node, then walks the children exactly as `GetChildNodes` lists them |
| FwTree.DfsReachesChildren | Assets/Framework/Common/BTFramework/BehaviourTree.cs:162-166 | everything a child's walk visits is visited by its parent's walk |
| FwTree.ExecutorTick | Assets/Framework/Common/BTFramework/BehaviourTreeExecutor.cs:47-51 | without a tree the tick fails; otherwise the tree is ticked with the delta only when it was running |
| FwTree.GetTreeState | Assets/Framework/Common/BTFramework/BehaviourTreeExecutor.cs:53-56 | the tree's state, or `Failure` without a tree |
| FwTree.DestoryThenTickFails | Assets/Framework/Common/BTFramework/BehaviourTreeExecutor.cs:22-56 | after `Destory` every tick and every state query report `Failure` |
| FwTree.ExecutorGatesDelta | Assets/Framework/Common/BTFramework/BehaviourTreeExecutor.cs:47-51 | a tree that is not running is ticked with a delta of 0 and its clock does not move |
| CodeGen.ViewClassName | Assets/BehaviorTreeEditor/Editor/CodeGen/BTNodeGenerator.cs:44-46 | a non-empty custom name is used; otherwise the type name plus "View" |
| CodeGen.FileName | Assets/BehaviorTreeEditor/Editor/CodeGen/BTNodeGenerator.cs:19-49 | the file name is "Generated_", the view class name and ".cs", and the class name can be read back from it |
| CodeGen.FileNameInjective | Assets/BehaviorTreeEditor/Editor/CodeGen/BTNodeGenerator.cs:49 | distinct view classes get distinct files |
| CodeGen.GetBaseClassForCategory | Assets/BehaviorTreeEditor/Editor/CodeGen/BTNodeGenerator.cs:157-163 | each base class is chosen exactly when its keyword is the first of Composite, Decorator, Condition in the category; otherwise the action view |
| CodeGen.GetColorForCategory | Assets/BehaviorTreeEditor/Editor/CodeGen/BTNodeGenerator.cs:168-174 | the colour follows the same keyword priority |
| CodeGen.ColorFollowsBaseClass | Assets/BehaviorTreeEditor/Editor/CodeGen/BTNodeGenerator.cs:157-174 | two categories share a base class exactly when they share a colour |
| CodeGen.ReplaceOneChar | Assets/BehaviorTreeEditor/Editor/CodeGen/BTNodeGenerator.cs:181 | `Replace` with a one-character pattern substitutes each occurrence of that character |
| CodeGen.EscapeString | Assets/BehaviorTreeEditor/Editor/CodeGen/BTNodeGenerator.cs:179-182 | null stays null; the escaped text has no raw `\n`, and reading it as a C# literal gives back the original |
| CodeGen.EscapeStringKeepsCarriageReturn | Assets/BehaviorTreeEditor/Editor/CodeGen/BTNodeGenerator.cs:179-182 | as written, a carriage return passes through unescaped, so the escaped text is not safe inside a C# regular string literal |
| CodeGen.EscapeLiteral | Assets/BehaviorTreeEditor/Editor/CodeGen/BTNodeGenerator.cs:128 | the corrected escape: null stays null, the result holds none of C#'s line terminators, and reading it as a C# literal gives back the original |
| CodeGen.EscapeLiteralAgrees | Assets/BehaviorTreeEditor/Editor/CodeGen/BTNodeGenerator.cs:179-182 | on text whose only line terminator is `\n`, the corrected escape writes exactly what the source's escape writes |
| CodeGen.EscapeStringIsChainedReplace | Assets/BehaviorTreeEditor/Editor/CodeGen/BTNodeGenerator.cs:181 | the escape is the three chained `Replace` calls: backslash, then quote, then newline |
| CodeGen.EscapeIsPerChar | Assets/BehaviorTreeEditor/Editor/CodeGen/BTNodeGenerator.cs:181 | the three chained replacements escape each character on its own |
| CodeGen.UnescapeEscape | Assets/BehaviorTreeEditor/Editor/CodeGen/BTNodeGenerator.cs:179-182 | reading escaped text back gives the original |

## Left out

- The editor UI: node views, the graph view, inspectors, windows and menus.
- The code generator's file I/O, the attribute reflection that finds node types, and the template text of the generated classes.
- Reflection in `BuildNodeTree`. `FindNodeType` and `CreateNodeInstance` become the `known` parameter, which says whether a class name resolves to a node type.
- Unity's life cycle: `BTRunner`, `MonoBehaviour` hooks, ScriptableObject asset handling, serialization and `OnValidate`.
- The Framework `BehaviourTree` asset operations `Clone`, `Destroy`, `CreateNode`, `DeleteNode` and `CreateBlackboard`, and `Node`/`CompositeNode.Clone`. They create Unity assets.
- The Random, Wait, Jump and Log nodes and other leaf actions. Leaves take their outcome from an oracle keyed by GUID, fixed for one tick.
- Floating point: float variables and float comparisons are modelled with exact reals. Vectors, colours and Unity objects are opaque handles.
- EditorConditions.CompareNumeric: `Equal` and `NotEqual` use exact equality, while the source uses `Mathf.Approximately`; `CompareNumericAsWritten` holds the approximate test, and the integer case is corrected on purpose (see Findings).
- EditorTreeData.GetNodesByType: returns a set instead of the source's list, so equal nodes stored under two GUIDs count once and the dictionary order of the list is not modelled.
- EditorConditions.CompareValues: the `Float` branch compares reals exactly, so the tolerance of `Mathf.Approximately` on floats is not modelled. The `Int` branch is exact on purpose, as the corrected behaviour (see Findings).
- Events are modelled only as whether they fire: the blackboard change event, the running-node notifications. Debug logging, stopwatches and timestamps are dropped.
- The state machine and the other systems in `Assets/Framework` that are outside the two engines.
- The editor engine assumes a node's blackboard is the tree's blackboard.
- A null template for a child tree raises in C#; the model assumes one is set. The sub-tree's own clock stays at 0, as the source never advances it.
- EditorRuntime.Evaluate: when C# raises part-way through an evaluation, the changes made before the exception are lost in the model (`None`).
- FwTick.ParallelTick: `_completeNodes` is a set of nodes in C#; the model keeps child positions, which agrees when the children are distinct.
- FwNodes.OnAbort: `DecoratorNode` is not part of this model; its abort is assumed to forward to the child, and its resume to do nothing.
- FwTick.OnTick: ParallelSequence and ParallelSelector run with the corrected abort (`ParallelTick(..., false)`), which aborts the children that have not completed. The source aborts the completed children, which changes nothing (see Findings). `ParallelTick(..., true)` models the source as written, and its contract states what that variant leaves running.
- FwNodes.OnAbort: a fixed block counts the elapsed time against its working duration, which the next `OnStart` resets. The source shortens the serialized `duration` itself, so the shortening carries over into later runs (see Findings). `BlockAbortAsWritten` models that.
- FwNodes.OnResume: a fixed block resumes on its working duration, as in the corrected node. The source reads and shortens the serialized `duration`.
- FwTick.FixedBlockTick: the deadline is the start plus the working duration, which `OnStart` sets from the configured duration. The source compares against the serialized `duration`, which earlier aborts may have shortened. The two agree during a block's first run.
- FwTick.Tick: the Framework `NodeState` has three values, so the source's fall-through to `Running` for other values cannot happen.
- Null entries in a composite's child list are not modelled.
- `OnStop` is a no-op in every modelled node class.
- EditorRuntime.RepLoop: an infinite repeater whose child keeps finishing at once loops for ever in C#; the model stops after `fuel` rounds and returns `None`.
- EditorTreeData.RemoveNode: the recursion is bounded by `fuel`, and the model returns `None` when it runs out. C# overflows the stack only when the recursion enters a node it is already inside; detaching each node from its parent first can break a cycle before the recursion reaches it, so not every cyclic graph overflows. `RemoveNodeAcyclicEnds` proves fuel above the node count enough for a node with no cycle below it; for a cyclic graph the model does not say which inputs C# finishes.
- EditorTreeData.RemoveNodeLeavesParent: states sub-multiset of the parent's list minus one occurrence, not equality, because a child whose own parent GUID also names that parent is detached from it during the recursion.
- EditorScheduler.Scan: the dictionary's enumeration order is a parameter (`scanOrder`).
- EditorScheduler.Scan: `CheckAbortConditions` visits every instance in the dictionary, including instances not reachable from the root. The model names instances by their path from the root, so a composite that is not reachable from the root is never scanned, and the states of its condition children are not committed.
- EditorScheduler.Scan: a node listed as a child of two parents is shared in C#; the model names instances by path and assumes the instance graph is a tree. The separate `conditionalNodes` list is never read by the scan and is not modelled.
- EditorBlackboard.ToText: a float or a Unity value written into a string variable gives `None`, because C#'s culture-dependent number formatting and `ToString` of Unity objects are not modelled.
- CodeGen.EscapeString: modelled as written, so a carriage return, U+0085, U+2028 and U+2029 pass through raw; `CodeGen.EscapeLiteral` is the corrected escape (see Findings).
- EditorRuntime.OnEvaluate: a running leaf never registers itself as the current running node, while `WaitNode.OnEvaluate` (Assets/BehaviorTreeEditor/Runtime/Nodes/WaitNode.cs:49) does. Under a Sequence, Selector or Repeater the parent records the same node right after, so only one extra state notification is missing. Under a Parallel, Inverter, Root or ConditionalAbort parent the model's current running node can stay at an earlier node. That changes `IsExecutingInSubtree` and `IsExecutingLowerPriorityBranch`, and with them the abort scan.
- EditorTreeData.Create: Assets/BehaviorTreeEditor/Runtime/Data/TreeData.cs:198 passes `typeof(RootNode)` where the node data constructor takes a string class name; the model takes the class name to be the type's short name `RootNode`.
- EditorBuild.BuildNodeTree: the instance graph it builds is not converted into the `EditorRuntime.Tree` that the runtime evaluates; the runtime model takes the tree shape as its input.
- EditorBlackboard.SetValue: conversions of strings and floats to other types (`Convert.ToInt32("12")` and the like) are not modelled; they give `None`, like a failed conversion.

## Findings

| source | as written | input that shows it | evidently intended | confidence | as-written member | corrected member |
|---|---|---|---|---|---|---|
| Assets/BehaviorTreeEditor/Runtime/Nodes/CheckBlackboardNode.cs:90-102 | `Equal` and `NotEqual` on int variables go through `Mathf.Approximately` after converting to float | 2000000 `Equal` 2000001 holds | integers compare exactly | not executed | EditorConditions.ApproximateEqualityMergesInts | EditorConditions.CompareInt |
| Assets/BehaviorTreeEditor/Runtime/Nodes/CheckBlackboardNode.cs:74-75 | int values are converted to float before an ordering comparison | 16777217 `GreaterThan` 16777216 is false | the integer order | not executed | EditorConditions.FloatConversionHidesOrder | EditorConditions.CompareInt |
| Assets/Framework/Common/BTFramework/Node/Composite/ParallelSequenceNode.cs:38-42 | on finishing, only the completed children are aborted | one child fails and the other is running: the running one is left started and not aborted | abort the children that have not completed | not executed | FwTick.ParallelAsWrittenLeavesChildRunning | FwTick.ParallelEndsQuiet |
| Assets/BehaviorTreeEditor/Editor/CodeGen/BTNodeGenerator.cs:179-182 | only `\n` among C#'s line terminators is escaped, and the result is pasted into a `new Label("...")` literal | a description `a\rb` comes out as `a\rb` with a raw carriage return, which ends the generated string literal | every line terminator escaped, so the generated view compiles | not executed | CodeGen.EscapeStringKeepsCarriageReturn | CodeGen.EscapeLiteral |
| Assets/Framework/Common/BTFramework/Node/Decorator/FixedBlockNode.cs:21-29 | `OnAbort` reduces the serialized `duration`, which `OnStart` never restores | a 5-second block aborted after 2 seconds holds 3 seconds on its next start | each start holds the full configured duration | not executed | FwNodes.FixedBlockAbortShortensLaterRuns | FwNodes.FixedBlockStartIsFullDuration |
