# UrdfTraverser walks, modelled in Dafny

This project models the traversal core of `urdf_traverser::UrdfTraverser`. That class holds a
robot model parsed from URDF and walks its kinematic tree of links and joints.

## What is modelled

**The robot model.** A robot is a map from link names to links and a map from joint names to
joints, plus an optional root link name. Each link has:

- its child link pointers, in stored order, where `None` is a null pointer;
- the names of its child joints;
- the name of its parent joint, if it has one;
- its frame.

A joint names its parent link and its child link, and has an axis and an origin. A ghost
`rank` map says that every child ranks below its parent. It stands in for the acyclicity that
the urdf parser guarantees, and it lets the recursion terminate.

**Lookups.**

- `getLink`, `getJoint` and `getRootLinkName`. A model without a root gives the empty name.
- `getChildLink`, and `getChildJoint` with its codes -2, -1, 0 and 1.
- `getParentJoint`.
- `hasChildLink`, as the linear search loop it is.

**The two walks.** The callback receives the recursion-parameters object and returns a code:
positive to continue, 0 to stop, negative for an error. In the model the callback is a
function from the parameters, the link name and the level to the code and the new parameters.
The parameters are threaded through the whole walk.

Each walk is written twice:

- as a specification function that also returns the trace of callback calls (`TopDown` and
  `Children`, `BottomUp` and `Subtrees`);
- as the imperative method the source runs, proved to return the same code and parameters.

The walk from a link name looks the name up first and gives -1 when it is not there.

**Order theorems.** With a callback that always asks to go on:

- the top-down walk lists the subtree in pre-order (`PreOrder`, in stored child order);
- the bottom-up walk lists it in post-order (`PostOrder`, children in ascending name order,
  each name once).

For any callback:

- each walk's trace is a part of that order;
- in a tree, each walk visits every link at most once, at its distance from the start;
- top-down visits parents first, and bottom-up visits children first.

Return-code propagation is stated for any callback (module `Signals`). Small concrete robots
show where the two walks differ (module `Scenarios`).

**allRotationsToAxis.**

- The per-link callback (`AlignLink`) realigns a link's parent joint with the target axis. It
  compensates in the link's frame and in its child joints' origins.
- The wrapper (`AlignAll`) resolves the start link and walks top-down without it.
- The class `UrdfTraverser` holds the model and runs both as methods that rewrite it in place.

The vector algebra is a `Geometry` record of functions: axis comparison, the rotation between
two vectors, quaternion inverse, and applying a transform. These facts hold whatever those
functions compute:

- which joints and links change, and by which rotation;
- what the aligner leaves alone;
- that the shape of the model is kept;
- when the aligner returns true.

Two facts need one property of the axis comparison: the target axis must compare equal to
itself. These are that every joint below the start link ends up aligned, and that aligning
twice is aligning once. In the source this holds for every non-zero target. See
"## Abstracted".

## Behaviour of the code worth knowing

Each of the following is the behaviour of the code at the cited lines, and the model follows
the code:

- Top-down, a null child pointer returns `false`, which is 0, not an error (lines 208-212).
  The recursive caller checks only `ret < 0` (line 202). So a null pointer or a 0 below the
  start link's children stops only that subtree, and the walk goes on with the next sibling
  (`Scenarios.TopDownNestedStop`, `Scenarios.TopDownNestedNull`).
- Bottom-up, a 0 anywhere stops the whole walk (lines 261-265, `Scenarios.BottomUpNestedStop`).
  A child listed twice is walked once, because of the name set, while top-down walks it twice
  (`Scenarios.DuplicateChildTopDown`, `Scenarios.DuplicateChildBottomUp`).
- The aligner checks no joint type. It realigns any parent joint whose axis is not the
  target. Apart from the parameter-type check left out below, the only error the per-link
  callback reports is a missing or null link, which the model treats alike.
- `getRootLinkName` returns the empty string when the model has no root (line 46). The aligner
  then looks up the empty name (lines 299-307).

## Model

| member | source | states |
|---|---|---|
| UrdfModel.GetLink | urdf_traverser/src/UrdfTraverser.cpp:379-391 | the link is found exactly when the name is a key of the model, and it is that key's link |
| UrdfModel.GetJoint | urdf_traverser/src/UrdfTraverser.cpp:393-407 | the joint is found exactly when the name is a key of the joint map, and it is that joint |
| UrdfModel.GetRootLinkName | urdf_traverser/src/UrdfTraverser.cpp:40-49 | the root link's name, or the empty string when the model has no root |
| UrdfModel.RootLinkNameIsParentless | urdf_traverser/src/UrdfTraverser.cpp:40-49 | in a parsed model the reported root name is a link, has no parent joint, and is the only link without one |
| UrdfModel.GetChildLink | urdf_traverser/src/UrdfTraverser.cpp:118-130 | a link is found exactly when the joint's child link name is in the model, and it is that link |
| UrdfModel.GetChildJoint | urdf_traverser/src/UrdfTraverser.cpp:95-116 | -2 iff the child link is missing; -1 iff it has more than one child joint; 0 iff none; 1 iff exactly one, and then `child` is that joint; `child` is unchanged otherwise |
| UrdfModel.ChildJointContinuesChain | urdf_traverser/src/UrdfTraverser.cpp:95-116 | in a consistent model, a joint reported with code 1 exists and starts at the link where the given joint ends |
| UrdfModel.GetParentJoint | urdf_traverser/src/UrdfTraverser.cpp:132-144 | there is a result exactly when the parent link exists and has a parent joint, and it is that joint |
| UrdfModel.ParentJointPrecedes | urdf_traverser/src/UrdfTraverser.cpp:132-144 | in a consistent model the reported joint exists and ends at the given joint's parent link |
| UrdfModel.HasChildLink | urdf_traverser/src/UrdfTraverser.cpp:148-156 | true iff some child pointer of the link names the child; nothing changes |
| SortedNames.SortedChildNamesSpec | urdf_traverser/src/UrdfTraverser.cpp:238-243 | the set of child names is strictly ascending and holds exactly the names of the link's child pointers |
| SortedNames.StrictlySortedDistinct | urdf_traverser/src/UrdfTraverser.cpp:238-245 | a strictly ascending name list holds each name once |
| SortedNames.InsertAllMembers | urdf_traverser/src/UrdfTraverser.cpp:238-243 | inserting names into the set gives exactly those names |
| Traversal.TraverseTopDownFrom | urdf_traverser/src/UrdfTraverser.cpp:159-169 | -1 with the parameters untouched for an unknown link name; otherwise the top-down walk from that link at level 0 |
| Traversal.TraverseTopDown | urdf_traverser/src/UrdfTraverser.cpp:171-215 | the code and final parameters of the loop-and-recursion program are those of the walk `TopDown` |
| Traversal.TraverseBottomUpFrom | urdf_traverser/src/UrdfTraverser.cpp:221-231 | -1 with the parameters untouched for an unknown link name; otherwise the bottom-up walk from that link at level 0 |
| Traversal.TraverseBottomUp | urdf_traverser/src/UrdfTraverser.cpp:235-293 | the code and final parameters of the set-building loop, the child loop and the final callback are those of the walk `BottomUp` |
| Signals.TopDownSignals | urdf_traverser/src/UrdfTraverser.cpp:171-215 | the code is at most 1; it is negative iff the last call was; every earlier call returned at least 0; a code of at most 0 from the start link or a direct child is the last call and is returned unchanged; a failure deeper down is returned as -1; a 0 comes from such a call or from a null child pointer of the start link; when the start link has no null child pointer, no call fails and no call at those two levels returns 0, the code is 1 and every direct child is called; when the first null child pointer of the start link is reached with no such stop or failure, the code is 0 and only the children before it were called, so the later ones never are; the start link is called first, only with `includeLink`, and every other call is at a deeper level |
| Signals.ChildrenSignals | urdf_traverser/src/UrdfTraverser.cpp:186-214 | the same facts for the loop over the child pointers from a given index, the children's own calls taking the place of the start link and its children; the first null entry from that index ends the loop with 0, and no later entry is called |
| Signals.BottomUpSignals | urdf_traverser/src/UrdfTraverser.cpp:235-293 | every failure is -1; every call but the last returned a positive code; a last call returning at most 0 ends the walk with 0 or -1; a 0 only comes from a call; on success without `includeLink` the code is 1, with it the start link is called last at its level and its code is returned; when child pointers resolve, every failure comes from a call; a child pointer whose name the model does not hold gives -1 unless a call stopped or failed first, and then nothing was called at the start level, so the start link is not handed over |
| Signals.SubtreesSignals | urdf_traverser/src/UrdfTraverser.cpp:245-278 | the same facts for the loop over the sorted child names: it returns only 1, 0 or -1, and a name the model does not hold gives -1 unless a call stopped or failed first; at the first such name the loop ends, and only the names before it were walked |
| PreOrders.PreOrderMembers | urdf_traverser/src/UrdfTraverser.cpp:171-215 | the pre-order of a subtree lists exactly its links, each at the start level plus its distance from the top |
| PreOrders.PreOrderDistinct | urdf_traverser/src/UrdfTraverser.cpp:171-215 | in a tree the pre-order lists no link twice |
| PreOrders.PreOrderParentsFirst | urdf_traverser/src/UrdfTraverser.cpp:171-215 | in a tree the pre-order lists each link before its children |
| PostOrders.PostOrderMembers | urdf_traverser/src/UrdfTraverser.cpp:235-293 | the post-order of a subtree lists exactly its links, each at the start level plus its distance from the top |
| PostOrders.PostOrderDistinct | urdf_traverser/src/UrdfTraverser.cpp:235-293 | in a tree the post-order lists no link twice |
| PostOrders.PostOrderChildrenFirst | urdf_traverser/src/UrdfTraverser.cpp:235-293 | in a tree the post-order lists each link after its children |
| WalkOrders.TopDownPreOrder | urdf_traverser/src/UrdfTraverser.cpp:171-215 | with a callback that goes on while an invariant holds, the walk returns 1, keeps the invariant, and calls the callback on exactly the pre-order, without the start link when `includeLink` is false |
| WalkOrders.TopDownWithinPreOrder | urdf_traverser/src/UrdfTraverser.cpp:171-215 | for any callback, the calls made are the pre-order with some visits left out |
| WalkOrders.TopDownVisitsOnce | urdf_traverser/src/UrdfTraverser.cpp:174-201 | in a tree, any top-down walk calls each link at most once, parents before children, at its distance from the start, and never calls the start link without `includeLink` |
| WalkOrders.TopDownContinue | urdf_traverser/src/UrdfTraverser.cpp:171-215 | with a callback that goes on while an invariant holds, the walk keeps the invariant and returns 1 when the start link has no null child pointer and 0 otherwise, whatever null pointers lie further down |
| WalkOrders.BottomUpPostOrder | urdf_traverser/src/UrdfTraverser.cpp:235-293 | with a callback that goes on, the walk succeeds, returns 1 without `includeLink`, and calls the callback on exactly the post-order, without the start link when `includeLink` is false |
| WalkOrders.BottomUpGoesOn | urdf_traverser/src/UrdfTraverser.cpp:235-293 | with a callback that goes on while an invariant holds, the walk succeeds and keeps the invariant |
| WalkOrders.BottomUpWithinPostOrder | urdf_traverser/src/UrdfTraverser.cpp:235-293 | for any callback, the calls made are a prefix of the post-order: an early stop cuts the order off and skips nothing |
| WalkOrders.BottomUpVisitsOnce | urdf_traverser/src/UrdfTraverser.cpp:238-292 | in a tree, any bottom-up walk calls each link at most once, children before parents, at its distance from the start |
| WalkOrders.BottomUpSkipsStart | urdf_traverser/src/UrdfTraverser.cpp:280-283 | without `includeLink` the start link is never handed to the callback |
| WalkOrders.BottomUpChildrenAscending | urdf_traverser/src/UrdfTraverser.cpp:238-245 | the direct children are called in strictly ascending name order |
| WalkOrders.PostOrderChildrenAscending | urdf_traverser/src/UrdfTraverser.cpp:238-245 | in the post-order the links one level below the top come in strictly ascending name order |
| WalkEffects.TopDownKeeps | urdf_traverser/src/UrdfTraverser.cpp:171-215 | a fact about the parameters that every callback call keeps still holds after the walk |
| WalkEffects.TopDownEstablishes | urdf_traverser/src/UrdfTraverser.cpp:171-215 | a fact each call establishes for its link, and that every call keeps, holds after the walk for every link called |
| WalkEffects.TopDownKeepsBelow | urdf_traverser/src/UrdfTraverser.cpp:171-215 | a fact about the parameters that every callback call on a link the walk can reach keeps still holds after the walk |
| WalkEffects.TopDownStill | urdf_traverser/src/UrdfTraverser.cpp:171-215 | when the callback changes nothing on any link the walk can reach, the walk leaves the parameters as they were |
| Aligner.RotateChildJoints | urdf_traverser/src/UrdfTraverser.cpp:362-366 | the loop over the child joints keeps every joint name and changes only origins, and only of the joints listed |
| Aligner.RotateChildJointsOnce | urdf_traverser/src/UrdfTraverser.cpp:362-366 | a child joint listed once has the rotation applied to its origin exactly once |
| Aligner.AlignLink | urdf_traverser/src/UrdfTraverser.cpp:326-376 | -1 for a missing link and 1 otherwise; nothing changes when the link has no parent joint or it is already aligned; otherwise the joint's axis becomes the target; only that link, its parent joint and its child joints change; no axis but that parent joint's changes; the shape of the model is kept |
| Aligner.AlignLinkRotations | urdf_traverser/src/UrdfTraverser.cpp:351-371 | when realigning: the joint origin is turned by the rotation onto the target, the link frame by its inverse, and each other child joint listed once by the inverse |
| Aligner.AlignLinkAligns | urdf_traverser/src/UrdfTraverser.cpp:342-372 | for a target aligned with itself, after the callback the link's parent joint, if any, is aligned with the target |
| Aligner.AlignLinkIdempotent | urdf_traverser/src/UrdfTraverser.cpp:351-372 | for a target aligned with itself, running the callback twice on a link is running it once |
| Aligner.ResolveStartLink | urdf_traverser/src/UrdfTraverser.cpp:299-308 | a named start link is used iff it exists; the empty name means the root link, used iff it exists; any start found is that name, and there is none, with no fallback, when that name is not a link |
| Aligner.ResolveStartAtRoot | urdf_traverser/src/UrdfTraverser.cpp:299-303 | in a parsed model the empty name starts the aligner at the one link without a parent joint |
| Aligner.AlignAll | urdf_traverser/src/UrdfTraverser.cpp:296-323 | with no start link the result is false and the model is unchanged |
| Aligner.AlignAllSucceeds | urdf_traverser/src/UrdfTraverser.cpp:313-322 | from an existing start link the aligner returns true exactly when the start link has no null child pointer |
| Aligner.AlignLinkUntouched | urdf_traverser/src/UrdfTraverser.cpp:326-376 | the callback on a link strictly below the start changes no link outside that region and no joint that is not the parent or a child joint of a link in it |
| Aligner.AlignAllFrame | urdf_traverser/src/UrdfTraverser.cpp:313-376 | the aligner keeps every link and joint name; it leaves unchanged every link not strictly below the start link, the start included, and every joint that is neither the parent joint nor a child joint of a link strictly below the start |
| Aligner.AlignAllKeepsShape | urdf_traverser/src/UrdfTraverser.cpp:296-376 | the aligner keeps every link, joint, root and child pointer; only frames, axes and origins change |
| Aligner.AlignAllAligns | urdf_traverser/src/UrdfTraverser.cpp:313-322 | from an existing start link on a model without null child pointers, the aligner returns true and, for a target aligned with itself, aligns the parent joint of every link strictly below the start |
| Aligner.AlignAllIdempotent | urdf_traverser/src/UrdfTraverser.cpp:296-376 | on a model without null child pointers and for a target aligned with itself, aligning a second time from the same start returns true and changes nothing |
| Aligner.UrdfTraverser.AllRotationsToAxisAt | urdf_traverser/src/UrdfTraverser.cpp:326-376 | the in-place rewrite of the model returns the code of `AlignLink` and leaves the model `AlignLink` describes |
| Aligner.UrdfTraverser.AllRotationsToAxis | urdf_traverser/src/UrdfTraverser.cpp:296-323 | the in-place run returns the result of `AlignAll` and leaves the model `AlignAll` describes |
| Scenarios.TopDownNestedStop | urdf_traverser/src/UrdfTraverser.cpp:194-206 | top-down, a 0 returned two levels down stops only that subtree: the sibling is still called and the walk returns 1 |
| Scenarios.BottomUpNestedStop | urdf_traverser/src/UrdfTraverser.cpp:260-265 | bottom-up, the same 0 stops the whole walk with 0, and no other link is called |
| Scenarios.TopDownNestedNull | urdf_traverser/src/UrdfTraverser.cpp:190-212 | a null child pointer gives 0 from its own link, but goes unnoticed when that link is a grandchild of the start |
| Scenarios.DuplicateChildTopDown | urdf_traverser/src/UrdfTraverser.cpp:186-201 | a child pointer listed twice is walked twice top-down |
| Scenarios.DuplicateChildBottomUp | urdf_traverser/src/UrdfTraverser.cpp:238-260 | a child listed twice is walked once bottom-up |

## Left out

- Loading a model from a file or an XML string, the urdf parser, `printModel` and all
  logging: input and output only.
- The Eigen arithmetic in `equalAxes`, `jointTransformForAxis` and `applyTransform`, including
  normalisation and the 1e-06 tolerance: floating-point rotation algebra. It is the `Geometry`
  parameter. The one property of it that some proofs assume is listed under "## Abstracted".
- That the robot keeps its pose in the world after the aligner runs: this needs the rotation
  algebra above.
- `getDependencyOrderedJoints` and `getJointNames`: they delegate to code that is not part of
  this model.
- The `dynamic_pointer_cast` of the recursion parameters and its -1 on a wrong type: the
  parameters here have a fixed type, so that branch cannot be written.
- A null link handed to the per-link callback is modelled as a link name not in the model,
  which gives -1 in the same way.
- A parent-joint name that names no joint is treated like having no parent joint (callback
  result 1, nothing changes). In the source the pointer always points to a joint.
- Aliasing of the shared robot during a walk: the walks read the child pointers from the model
  as it was when the walk started, and only the parameters change. The aligner never changes
  a child pointer (`Aligner.AlignAllKeepsShape`), so this does not change what it does.
- The class declaration and its constructor are not part of this model. The class here keeps
  only the robot model that the walks and the aligner use.
- `readChildLink`, `readParentJoint`, `readLink` and `readJoint` are the const twins of the
  functions above and are not written a second time.
- Traversal.TraverseBottomUp: requires every child pointer to be non-null, because the source
  reads the name through every pointer before it checks any (lines 241-242). Its re-check with
  `hasChildLink` is modelled, but it always succeeds, because the child pointers cannot change
  between the two loops here.
- Traversal.TraverseTopDown: the level is an unbounded natural number, not a 32-bit
  `unsigned int`. A tree deep enough to wrap it around cannot be built.
- Aligner.AlignAll: its contract states only the case without a start link. What it does with
  a start link is stated by `Aligner.AlignAllSucceeds`, `Aligner.AlignAllFrame`,
  `Aligner.AlignAllAligns`, `Aligner.AlignAllKeepsShape` and `Aligner.AlignAllIdempotent`.

## Abstracted

- `Geometry.aligned(target, target)`: the target axis compares equal to itself. In the source
  `equalAxes` normalises both vectors and asks that their dot product be within 1e-06 of 1, so
  this holds for every non-zero target. For a zero target the dot product is 0 and it fails. `AlignLinkAligns`,
  `AlignLinkIdempotent`, `AlignFacts`, `AlignAllAligns` and `AlignAllIdempotent` require it.
  Every other aligner fact holds for any `Geometry`.
