/** The robot description the traversal engine works on: links, joints and the lookups
    of UrdfTraverser (getLink, getJoint, getRootLinkName, getChildJoint, getParentJoint,
    hasChildLink). Link pointers are modelled by link names, a null child pointer by None. */
module UrdfModel {

  datatype Option<T> = None | Some(value: T)

  /** Geometry is treated as opaque values: the model never computes with them. */
  datatype Vector3 = Vector3(x: real, y: real, z: real)
  datatype Quaternion = Quaternion(w: real, x: real, y: real, z: real)
  datatype Pose = Pose(position: Vector3, rotation: Quaternion)

  /** A link: its child link pointers (None is a null pointer), its child joints, its parent
      joint (None for the root) and its own frame (the origins of its visual, collision and
      inertial elements, rewritten by the axis aligner). The link's name is its key. */
  datatype Link = Link(childLinks: seq<Option<string>>, childJoints: seq<string>,
                       parentJoint: Option<string>, frame: Pose)

  /** A joint from its parent link to its child link, with its rotation axis and its origin
      (the child frame relative to the parent frame). The joint's name is its key. */
  datatype Joint = Joint(parentLink: string, childLink: string, axis: Vector3, origin: Pose)

  type Links = map<string, Link>

  /** The urdf model: links and joints indexed by name, and the root link pointer. */
  datatype Robot = Robot(links: Links, joints: map<string, Joint>, root: Option<string>)

  // ---------------------------------------------------------------------------
  // Structural predicates

  /** `c` is the target of one of the child link pointers of `link`. */
  predicate IsChild(link: Link, c: string)
  {
    exists i :: 0 <= i < |link.childLinks| && link.childLinks[i] == Some(c)
  }

  predicate ChildOf(m: Links, p: string, c: string)
  {
    p in m && IsChild(m[p], c)
  }

  /** Every non-null child pointer designates a link of the model. */
  predicate Closed(m: Links)
  {
    forall k, i :: k in m && 0 <= i < |m[k].childLinks| && m[k].childLinks[i].Some? ==>
      m[k].childLinks[i].value in m
  }

  /** No child pointer is null. */
  predicate NoNullChildren(m: Links)
  {
    forall k, i :: k in m && 0 <= i < |m[k].childLinks| ==> m[k].childLinks[i].Some?
  }

  /** `rank` witnesses that the child relation is acyclic: a child ranks below its parent. */
  ghost predicate Ranked(m: Links, rank: map<string, nat>)
  {
    && m.Keys <= rank.Keys
    && forall k, i ::
         k in m && 0 <= i < |m[k].childLinks| && m[k].childLinks[i].Some? && m[k].childLinks[i].value in m
         ==> rank[m[k].childLinks[i].value] < rank[k]
  }

  lemma ChildRank(m: Links, rank: map<string, nat>, p: string, c: string)
    requires Ranked(m, rank) && ChildOf(m, p, c) && c in m
    ensures c in rank && p in rank && rank[c] < rank[p]
  {
    var i :| 0 <= i < |m[p].childLinks| && m[p].childLinks[i] == Some(c);
    assert m[p].childLinks[i].value == c;
  }

  /** In a closed model the target of a child pointer is a link of the model. */
  lemma ChildInModel(m: Links, p: string, c: string)
    requires Closed(m) && ChildOf(m, p, c)
    ensures c in m
  {
    var i :| 0 <= i < |m[p].childLinks| && m[p].childLinks[i] == Some(c);
    assert m[p].childLinks[i].Some?;
  }

  /** A link is the child of at most one link. */
  ghost predicate UniqueParents(m: Links)
  {
    forall p, q, c :: ChildOf(m, p, c) && ChildOf(m, q, c) ==> p == q
  }

  /** No link lists the same child twice. */
  ghost predicate DistinctChildren(m: Links)
  {
    forall k, i, j :: k in m && 0 <= i < j < |m[k].childLinks| && m[k].childLinks[i].Some? ==>
      m[k].childLinks[i] != m[k].childLinks[j]
  }

  /** The shape the urdf parser builds: a tree of resolvable pointers. */
  ghost predicate Tree(m: Links)
  {
    Closed(m) && UniqueParents(m) && DistinctChildren(m)
  }

  /** The back references the urdf parser sets up between links and joints. */
  ghost predicate Consistent(r: Robot)
  {
    && (forall l :: l in r.links && r.links[l].parentJoint.Some? ==>
          r.links[l].parentJoint.value in r.joints &&
          r.joints[r.links[l].parentJoint.value].childLink == l)
    && (forall l, i :: l in r.links && 0 <= i < |r.links[l].childJoints| ==>
          r.links[l].childJoints[i] in r.joints &&
          r.joints[r.links[l].childJoints[i]].parentLink == l)
  }

  // ---------------------------------------------------------------------------
  // Lookups

  /** getLink / readLink: the link of that name, or a null pointer. */
  function GetLink(r: Robot, name: string): (l: Option<Link>)
    ensures l.Some? <==> name in r.links
    ensures l.Some? ==> l.value == r.links[name]
  {
    if name in r.links then Some(r.links[name]) else None
  }

  /** getJoint / readJoint: the joint of that name, or a null pointer. */
  function GetJoint(r: Robot, name: string): (j: Option<Joint>)
    ensures j.Some? <==> name in r.joints
    ensures j.Some? ==> j.value == r.joints[name]
  {
    if name in r.joints then Some(r.joints[name]) else None
  }

  /** getRootLinkName: the root link's name, or the empty string when the model has none. */
  function GetRootLinkName(r: Robot): (name: string)
    ensures r.root.Some? ==> name == r.root.value
    ensures r.root.None? ==> name == ""
  {
    match r.root
    case Some(n) => n
    case None => ""
  }

  /** The root pointer the urdf parser sets: a link without a parent joint, the only one. */
  ghost predicate RootIsTheParentless(r: Robot)
  {
    && r.root.Some?
    && r.root.value in r.links
    && forall l :: l in r.links ==> (r.links[l].parentJoint.None? <==> l == r.root.value)
  }

  /** getRootLinkName under the urdf parser's invariant: it names the one link without a
      parent joint. A direct consequence of that invariant, recorded for the callers that
      rely on it. */
  lemma RootLinkNameIsParentless(r: Robot)
    requires RootIsTheParentless(r)
    ensures GetRootLinkName(r) in r.links
    ensures r.links[GetRootLinkName(r)].parentJoint.None?
    ensures forall l :: l in r.links && r.links[l].parentJoint.None? ==> l == GetRootLinkName(r)
  {
  }

  /** getChildLink / readChildLink: the link a joint leads to. */
  function GetChildLink(r: Robot, joint: Joint): (l: Option<Link>)
    ensures l.Some? <==> joint.childLink in r.links
    ensures l.Some? ==> l.value == r.links[joint.childLink]
  {
    GetLink(r, joint.childLink)
  }

  /** getChildJoint: the single joint below `joint`'s child link. Returns the code and the
      out parameter `child`, which is overwritten only when the code is 1. */
  function GetChildJoint(r: Robot, joint: Joint, child: string): (res: (int, string))
    ensures res.0 == -2 <==> joint.childLink !in r.links
    ensures res.0 == -1 <==> joint.childLink in r.links && |r.links[joint.childLink].childJoints| > 1
    ensures res.0 == 0 <==> joint.childLink in r.links && |r.links[joint.childLink].childJoints| == 0
    ensures res.0 == 1 <==> joint.childLink in r.links && |r.links[joint.childLink].childJoints| == 1
    ensures res.0 == 1 ==> res.1 == r.links[joint.childLink].childJoints[0]
    ensures res.0 != 1 ==> res.1 == child
  {
    match GetChildLink(r, joint)
    case None => (-2, child)
    case Some(l) =>
      if |l.childJoints| > 1 then (-1, child)
      else if |l.childJoints| == 0 then (0, child)
      else (1, l.childJoints[0])
  }

  /** In a consistent model the joint getChildJoint reports starts where `joint` ends: a
      direct consequence of the parser's link-joint invariants (Consistent), recorded as the
      chain the traverser relies on. */
  lemma ChildJointContinuesChain(r: Robot, joint: Joint, child: string)
    requires Consistent(r)
    requires GetChildJoint(r, joint, child).0 == 1
    ensures GetChildJoint(r, joint, child).1 in r.joints
    ensures r.joints[GetChildJoint(r, joint, child).1].parentLink == joint.childLink
  {
    var l := r.links[joint.childLink];
    assert 0 <= 0 < |l.childJoints|;
  }

  /** getParentJoint / readParentJoint: the parent joint of `joint`'s parent link, or a null
      pointer when that link is missing or is the root. */
  function GetParentJoint(r: Robot, joint: Joint): (p: Option<string>)
    ensures p.Some? <==> joint.parentLink in r.links && r.links[joint.parentLink].parentJoint.Some?
    ensures p.Some? ==> p == r.links[joint.parentLink].parentJoint
  {
    match GetLink(r, joint.parentLink)
    case None => None
    case Some(l) => l.parentJoint
  }

  /** In a consistent model the joint getParentJoint reports ends where `joint` starts: a
      direct consequence of the parser's link-joint invariants (Consistent), recorded as the
      chain the traverser relies on. */
  lemma ParentJointPrecedes(r: Robot, joint: Joint)
    requires Consistent(r)
    requires GetParentJoint(r, joint).Some?
    ensures GetParentJoint(r, joint).value in r.joints
    ensures r.joints[GetParentJoint(r, joint).value].childLink == joint.parentLink
  {
  }

  /** hasChildLink: a linear search of the child pointers for one with that name. Every
      pointer it reads is dereferenced, so they must not be null. */
  method HasChildLink(link: Link, childName: string) returns (found: bool)
    requires forall i :: 0 <= i < |link.childLinks| ==> link.childLinks[i].Some?
    ensures found <==> IsChild(link, childName)
  {
    var i := 0;
    while i < |link.childLinks|
      invariant 0 <= i <= |link.childLinks|
      invariant forall j :: 0 <= j < i ==> link.childLinks[j] != Some(childName)
    {
      if link.childLinks[i].value == childName {
        return true;
      }
      i := i + 1;
    }
    return false;
  }
}
