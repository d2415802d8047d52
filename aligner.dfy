/** allRotationsToAxis: turn every joint below a start link so that its rotation axis is a
    given target axis, compensating each turn in the link below the joint and in that link's
    child joints so that the robot keeps its shape.

    The rotation algebra (normalising, comparing and turning vectors, composing poses) is
    given as a `Geometry` record of functions the model never computes with; what is proved
    is which joints and links are rewritten, with which rotation, and that the walk reaches
    every joint below the start link. */
module Aligner {
  import opened UrdfModel
  import opened Traversal
  import opened TreeShape
  import opened Orders
  import opened PreOrders
  import opened WalkOrders
  import opened WalkEffects

  /** The rotation algebra the aligner calls into.
      `aligned(axis, target)`: the normalised joint axis equals the target up to 1e-06
      (jointTransformForAxis returns false); `rotationBetween(axis, target)`: the rotation
      turning the normalised axis onto the target; `inverse`: the inverse rotation;
      `transform(pose, q, preMultiply)`: applyTransform of the rotation `q` to an origin. */
  datatype Geometry = Geometry(aligned: (Vector3, Vector3) -> bool,
                               rotationBetween: (Vector3, Vector3) -> Quaternion,
                               inverse: Quaternion -> Quaternion,
                               transform: (Pose, Quaternion, bool) -> Pose)

  /** `r'` differs from `r` at most in link frames, joint axes and joint origins: the same
      links, joints, root and tree. */
  ghost predicate SameShape(r: Robot, r': Robot)
  {
    && r'.root == r.root
    && r'.links.Keys == r.links.Keys
    && r'.joints.Keys == r.joints.Keys
    && (forall l :: l in r.links ==> r'.links[l] == r.links[l].(frame := r'.links[l].frame))
    && (forall j :: j in r.joints ==>
          r'.joints[j] == r.joints[j].(axis := r'.joints[j].axis, origin := r'.joints[j].origin))
  }

  lemma SameShapeTransitive(r: Robot, s: Robot, t: Robot)
    requires SameShape(r, s) && SameShape(s, t)
    ensures SameShape(r, t)
  {
  }

  /** `names[k]` occurs nowhere else in `names`. */
  predicate OccursOnce(names: seq<string>, k: nat)
    requires k < |names|
  {
    forall k2 :: 0 <= k2 < |names| && k2 != k ==> names[k2] != names[k]
  }

  /** applyTransform(joint, q, true) on the joint named `n`, when there is one. */
  function RotateJoint(geo: Geometry, joints: map<string, Joint>, n: string, q: Quaternion)
    : (r: map<string, Joint>)
    ensures r.Keys == joints.Keys
    ensures forall j :: j in joints && j != n ==> r[j] == joints[j]
    ensures n in joints ==> r[n] == joints[n].(origin := geo.transform(joints[n].origin, q, true))
  {
    if n in joints then joints[n := joints[n].(origin := geo.transform(joints[n].origin, q, true))]
    else joints
  }

  /** The loop over the child joints of the realigned link: the joints named, in list order,
      each get the rotation `q` pre-multiplied onto their origin. Only origins change. */
  function RotateChildJoints(geo: Geometry, joints: map<string, Joint>, names: seq<string>,
                             q: Quaternion): (r: map<string, Joint>)
    ensures r.Keys == joints.Keys
    ensures forall j :: j in joints ==> r[j] == joints[j].(origin := r[j].origin)
    ensures forall j :: j in joints && j !in names ==> r[j] == joints[j]
    decreases |names|
  {
    if |names| == 0 then joints
    else RotateChildJoints(geo, RotateJoint(geo, joints, names[0], q), names[1..], q)
  }

  /** A child joint listed once is turned exactly once. */
  lemma {:induction false} RotateChildJointsOnce(geo: Geometry, joints: map<string, Joint>,
                                                 names: seq<string>, q: Quaternion, k: nat)
    requires k < |names| && names[k] in joints && OccursOnce(names, k)
    ensures RotateChildJoints(geo, joints, names, q)[names[k]].origin ==
            geo.transform(joints[names[k]].origin, q, true)
    decreases |names|
  {
    var next := RotateJoint(geo, joints, names[0], q);
    if k == 0 {
      assert names[0] !in names[1..] by {
        forall k2 | 0 <= k2 < |names[1..]| ensures names[1..][k2] != names[0] {
          assert names[1..][k2] == names[k2 + 1];
        }
      }
    } else {
      assert names[1..][k - 1] == names[k];
      assert OccursOnce(names[1..], k - 1) by {
        forall k2 | 0 <= k2 < |names[1..]| && k2 != k - 1 ensures names[1..][k2] != names[k] {
          assert names[1..][k2] == names[k2 + 1];
        }
      }
      RotateChildJointsOnce(geo, next, names[1..], q, k - 1);
    }
  }

  /** The parent joint of link `name` exists and its axis is not the target yet. */
  predicate NeedsAlignment(geo: Geometry, target: Vector3, r: Robot, name: string)
  {
    && name in r.links
    && r.links[name].parentJoint.Some?
    && r.links[name].parentJoint.value in r.joints
    && !geo.aligned(r.joints[r.links[name].parentJoint.value].axis, target)
  }

  /** The parent joint of the link `x` is aligned with the target, or the link has none. */
  predicate AxisAligned(geo: Geometry, target: Vector3, r: Robot, x: string)
  {
    x in r.links && r.links[x].parentJoint.Some? && r.links[x].parentJoint.value in r.joints ==>
      geo.aligned(r.joints[r.links[x].parentJoint.value].axis, target)
  }

  /** allRotationsToAxis(p), the callback, on link `name`: -1 for a link the model does not
      have, 1 otherwise. Nothing changes unless the link's parent joint needs aligning; then
      only that link's frame, its parent joint and its child joints change, the shape stays,
      and the joint's axis becomes the target (no other axis changes). */
  function AlignLink(geo: Geometry, target: Vector3, r: Robot, name: string): (res: (int, Robot))
    ensures res.0 == (if name in r.links then 1 else -1)
    ensures SameShape(r, res.1)
    ensures !NeedsAlignment(geo, target, r, name) ==> res.1 == r
    ensures NeedsAlignment(geo, target, r, name) ==>
              res.1.joints[r.links[name].parentJoint.value].axis == target
    ensures forall l :: l in r.links && l != name ==> res.1.links[l] == r.links[l]
    ensures forall j :: j in r.joints && res.1.joints[j] != r.joints[j] ==>
              j == r.links[name].parentJoint.value || j in r.links[name].childJoints
    ensures forall j :: j in r.joints && res.1.joints[j].axis != r.joints[j].axis ==>
              res.1.joints[j].axis == target
    ensures forall j :: j in r.joints && res.1.joints[j].axis != r.joints[j].axis ==>
              NeedsAlignment(geo, target, r, name) && j == r.links[name].parentJoint.value
  {
    if !NeedsAlignment(geo, target, r, name) then (if name in r.links then 1 else -1, r)
    else
      var link := r.links[name];
      var jn := link.parentJoint.value;
      var joint := r.joints[jn];
      var q := geo.rotationBetween(joint.axis, target);
      var qi := geo.inverse(q);
      var joints := RotateChildJoints(geo, r.joints[jn := joint.(origin := geo.transform(joint.origin, q, false))],
                                      link.childJoints, qi);
      var links := r.links[name := link.(frame := geo.transform(link.frame, qi, true))];
      (1, Robot(links, joints[jn := joints[jn].(axis := target)], r.root))
  }

  /** When a joint is realigned with the rotation `q`: its origin is turned by `q` (unless it
      is also a child joint of its own child link), the link's frame by the inverse of `q`,
      and each other child joint listed once by the inverse of `q`. */
  lemma AlignLinkRotations(geo: Geometry, target: Vector3, r: Robot, name: string)
    requires NeedsAlignment(geo, target, r, name)
    ensures var link := r.links[name];
      var jn := link.parentJoint.value;
      var q := geo.rotationBetween(r.joints[jn].axis, target);
      var r' := AlignLink(geo, target, r, name).1;
      && r'.links[name].frame == geo.transform(link.frame, geo.inverse(q), true)
      && (jn !in link.childJoints ==>
            r'.joints[jn].origin == geo.transform(r.joints[jn].origin, q, false))
      && (forall k :: 0 <= k < |link.childJoints| && link.childJoints[k] in r.joints &&
                      link.childJoints[k] != jn && OccursOnce(link.childJoints, k) ==>
            r'.joints[link.childJoints[k]].origin ==
            geo.transform(r.joints[link.childJoints[k]].origin, geo.inverse(q), true))
  {
    var link := r.links[name];
    var jn := link.parentJoint.value;
    var joint := r.joints[jn];
    var q := geo.rotationBetween(joint.axis, target);
    var joints0 := r.joints[jn := joint.(origin := geo.transform(joint.origin, q, false))];
    forall k | 0 <= k < |link.childJoints| && link.childJoints[k] in r.joints &&
               link.childJoints[k] != jn && OccursOnce(link.childJoints, k)
      ensures RotateChildJoints(geo, joints0, link.childJoints, geo.inverse(q))[link.childJoints[k]].origin ==
              geo.transform(r.joints[link.childJoints[k]].origin, geo.inverse(q), true)
    {
      RotateChildJointsOnce(geo, joints0, link.childJoints, geo.inverse(q), k);
    }
  }

  /** After the callback on a link with a parent joint, that joint is aligned with the target
      (when the target is aligned with itself). */
  lemma AlignLinkAligns(geo: Geometry, target: Vector3, r: Robot, name: string)
    requires geo.aligned(target, target)
    ensures AxisAligned(geo, target, AlignLink(geo, target, r, name).1, name)
  {
  }

  /** Running the callback twice on a link does what running it once does. */
  lemma AlignLinkIdempotent(geo: Geometry, target: Vector3, r: Robot, name: string)
    requires geo.aligned(target, target)
    ensures var once := AlignLink(geo, target, r, name);
      AlignLink(geo, target, once.1, name) == once
  {
    var once := AlignLink(geo, target, r, name);
    if NeedsAlignment(geo, target, r, name) {
      assert !NeedsAlignment(geo, target, once.1, name);
    }
  }

  /** The callback as the top-down walk calls it; the level plays no part. */
  function AlignVisitor(geo: Geometry, target: Vector3): Visitor<Robot>
  {
    (r: Robot, name: string, level: nat) => AlignLink(geo, target, r, name)
  }

  /** allRotationsToAxis(fromLinkName, axis): the link to start from, the root link when the
      name is empty; None when there is no such link. */
  function ResolveStartLink(r: Robot, fromLinkName: string): (start: Option<string>)
    ensures start.Some? ==> start.value in r.links
    ensures fromLinkName != "" ==> (start == Some(fromLinkName) <==> fromLinkName in r.links)
    ensures fromLinkName == "" && r.root.Some? ==> (start == r.root <==> r.root.value in r.links)
    ensures fromLinkName == "" && r.root.None? ==> (start.Some? <==> "" in r.links)
    ensures start.Some? ==> start.value == (if fromLinkName == "" then GetRootLinkName(r) else fromLinkName)
    ensures start.None? ==> (if fromLinkName == "" then GetRootLinkName(r) else fromLinkName) !in r.links
  {
    var name := if fromLinkName == "" then GetRootLinkName(r) else fromLinkName;
    if name in r.links then Some(name) else None
  }

  /** With the empty name the aligner starts at the root link of a parsed model: the one link
      without a parent joint. A direct consequence of the parser's root invariant
      (RootIsTheParentless), recorded for the aligner. */
  lemma ResolveStartAtRoot(r: Robot)
    requires RootIsTheParentless(r)
    ensures ResolveStartLink(r, "").Some?
    ensures r.links[ResolveStartLink(r, "").value].parentJoint.None?
  {
    RootLinkNameIsParentless(r);
  }

  /** allRotationsToAxis(fromLinkName, axis): walk top-down from the start link, without it,
      running the callback on each link; true when the walk returns a positive code. */
  function AlignAll(geo: Geometry, r: Robot, ghost rank: map<string, nat>, fromLinkName: string,
                    target: Vector3): (res: (bool, Robot))
    requires Closed(r.links) && Ranked(r.links, rank)
    ensures ResolveStartLink(r, fromLinkName).None? ==> res == (false, r)
  {
    match ResolveStartLink(r, fromLinkName)
    case None => (false, r)
    case Some(a) =>
      var w := TopDown(r.links, rank, AlignVisitor(geo, target), r, a, false, 0);
      (w.code > 0, w.state)
  }

  /** The aligner changes no link, joint, root or tree structure: only frames, axes and
      origins. */
  lemma AlignAllKeepsShape(geo: Geometry, r: Robot, rank: map<string, nat>, fromLinkName: string,
                           target: Vector3)
    requires Closed(r.links) && Ranked(r.links, rank)
    ensures SameShape(r, AlignAll(geo, r, rank, fromLinkName, target).1)
  {
    var m := r.links;
    var visit := AlignVisitor(geo, target);
    var q := (x: string, s: Robot) => SameShape(r, s);
    assert KeepsFacts(m, visit, q) by {
      forall s: Robot, n: string, x: string, l: nat | n in m && q(x, s)
        ensures q(x, visit(s, n, l).1)
      {
        SameShapeTransitive(r, s, AlignLink(geo, target, s, n).1);
      }
    }
    match ResolveStartLink(r, fromLinkName)
    case None =>
    case Some(a) =>
      assert q(a, r);
      TopDownKeeps(m, rank, visit, q, r, a, false, 0);
  }

  /** The parameters still have the links of `m`. */
  function SameLinks(m: Links): Robot -> bool
  {
    (s: Robot) => s.links.Keys == m.Keys
  }

  /** The parent joint of link `x` is aligned with the target in the parameters. */
  function AlignedFact(geo: Geometry, target: Vector3): (string, Robot) -> bool
  {
    (x: string, s: Robot) => AxisAligned(geo, target, s, x)
  }

  /** The callback asks the walk to go on for every link the parameters still have. */
  lemma AlignContinues(geo: Geometry, target: Vector3, m: Links)
    ensures ContinuesWhile(m, AlignVisitor(geo, target), SameLinks(m))
  {
    var visit := AlignVisitor(geo, target);
    forall s: Robot, n: string, l: nat | SameLinks(m)(s) && n in m
      ensures visit(s, n, l).0 > 0 && SameLinks(m)(visit(s, n, l).1)
    {
      assert visit(s, n, l) == AlignLink(geo, target, s, n);
    }
  }

  /** A callback call leaves every aligned joint aligned, and aligns the parent joint of the
      link it is called on. */
  lemma AlignFacts(geo: Geometry, target: Vector3, m: Links)
    requires geo.aligned(target, target)
    ensures KeepsFacts(m, AlignVisitor(geo, target), AlignedFact(geo, target))
    ensures EstablishesFact(m, AlignVisitor(geo, target), AlignedFact(geo, target))
  {
    var visit := AlignVisitor(geo, target);
    var q := AlignedFact(geo, target);
    forall s: Robot, n: string, x: string, l: nat | n in m && q(x, s)
      ensures q(x, visit(s, n, l).1)
    {
      assert visit(s, n, l) == AlignLink(geo, target, s, n);
    }
    forall s: Robot, n: string, l: nat | n in m ensures q(n, visit(s, n, l).1) {
      AlignLinkAligns(geo, target, s, n);
    }
  }

  /** On a model without null child pointers, an existing start link makes the aligner
      succeed, and afterwards every joint strictly below the start link is aligned with the
      target. */
  lemma AlignAllAligns(geo: Geometry, r: Robot, rank: map<string, nat>, fromLinkName: string,
                       target: Vector3)
    requires Closed(r.links) && NoNullChildren(r.links) && Ranked(r.links, rank)
    requires geo.aligned(target, target)
    requires ResolveStartLink(r, fromLinkName).Some?
    ensures AlignAll(geo, r, rank, fromLinkName, target).0
    ensures forall x, k :: 0 < k && Below(r.links, ResolveStartLink(r, fromLinkName).value, x, k) ==>
              AxisAligned(geo, target, AlignAll(geo, r, rank, fromLinkName, target).1, x)
  {
    var m := r.links;
    var a := ResolveStartLink(r, fromLinkName).value;
    var visit := AlignVisitor(geo, target);
    AlignContinues(geo, target, m);
    TopDownPreOrder(m, rank, visit, SameLinks(m), r, a, false, 0);
    var w := TopDown(m, rank, visit, r, a, false, 0);
    AlignFacts(geo, target, m);
    TopDownEstablishes(m, rank, visit, AlignedFact(geo, target), r, a, false, 0);
    forall x, k | 0 < k && Below(m, a, x, k) ensures AxisAligned(geo, target, w.state, x) {
      PreOrderComplete(m, rank, a, x, k, 0);
      assert Visit(x, k) in Visited(w.trace);
      var j :| 0 <= j < |Visited(w.trace)| && Visited(w.trace)[j] == Visit(x, k);
      assert w.trace[j].link == x;
      assert AlignedFact(geo, target)(w.trace[j].link, w.state);
    }
  }

  /** Aligning again from the same start link succeeds and changes nothing. */
  lemma AlignAllIdempotent(geo: Geometry, r: Robot, rank: map<string, nat>, fromLinkName: string,
                           target: Vector3)
    requires Closed(r.links) && NoNullChildren(r.links) && Ranked(r.links, rank)
    requires geo.aligned(target, target)
    requires ResolveStartLink(r, fromLinkName).Some?
    ensures var once := AlignAll(geo, r, rank, fromLinkName, target).1;
      && Closed(once.links) && Ranked(once.links, rank)
      && AlignAll(geo, once, rank, fromLinkName, target) == (true, once)
  {
    var once := AlignAll(geo, r, rank, fromLinkName, target).1;
    AlignAllKeepsShape(geo, r, rank, fromLinkName, target);
    AlignAllAligns(geo, r, rank, fromLinkName, target);
    var m, m2 := r.links, once.links;
    assert forall l :: l in m ==> m2[l].childLinks == m[l].childLinks;
    assert Closed(m2) && NoNullChildren(m2) && Ranked(m2, rank);
    var a := ResolveStartLink(r, fromLinkName).value;
    assert ResolveStartLink(once, fromLinkName) == Some(a);
    var visit := AlignVisitor(geo, target);
    AlignContinues(geo, target, m2);
    TopDownPreOrder(m2, rank, visit, SameLinks(m2), once, a, false, 0);
    forall n, k: nat, l: nat | k > 0 && Below(m2, a, n, k) ensures visit(once, n, l).1 == once {
      BelowSameTree(m, m2, a, n, k);
      assert AxisAligned(geo, target, once, n);
      assert visit(once, n, l) == AlignLink(geo, target, once, n);
    }
    TopDownStill(m2, rank, visit, once, a, false, 0);
  }

  /** The link `x` lies strictly below the link `a`. */
  ghost predicate StrictlyBelow(m: Links, a: string, x: string)
    requires Closed(m) && a in m
  {
    exists k: nat :: 0 < k && Below(m, a, x, k)
  }

  /** The joint `j` is the parent joint or a child joint of a link strictly below `a`: the
      callback may rewrite it. */
  ghost predicate MayRealign(r: Robot, a: string, j: string)
    requires Closed(r.links) && a in r.links
  {
    exists x :: x in r.links && StrictlyBelow(r.links, a, x) &&
                (r.links[x].parentJoint == Some(j) || j in r.links[x].childJoints)
  }

  /** The aligner starts the walk without the start link: true exactly when the start link
      has no null child pointer. A null pointer further down ends only the loop over its
      siblings, whose code 0 lets the walk go on. */
  lemma AlignAllSucceeds(geo: Geometry, r: Robot, rank: map<string, nat>, fromLinkName: string,
                         target: Vector3)
    requires Closed(r.links) && Ranked(r.links, rank)
    requires ResolveStartLink(r, fromLinkName).Some?
    ensures var a := ResolveStartLink(r, fromLinkName).value;
      AlignAll(geo, r, rank, fromLinkName, target).0 <==>
      forall k :: 0 <= k < |r.links[a].childLinks| ==> r.links[a].childLinks[k].Some?
  {
    var a := ResolveStartLink(r, fromLinkName).value;
    AlignContinues(geo, target, r.links);
    assert SameLinks(r.links)(r);
    TopDownContinue(r.links, rank, AlignVisitor(geo, target), SameLinks(r.links), r, a, false, 0);
    assert AlignAll(geo, r, rank, fromLinkName, target).0 ==
           (TopDown(r.links, rank, AlignVisitor(geo, target), r, a, false, 0).code > 0);
  }

  /** In the parameters `s`, the link or joint named `x` is as in `r` unless the aligner
      may rewrite it from the start link `a`; and `s` has the shape of `r`. */
  ghost predicate Untouched(r: Robot, a: string, x: string, s: Robot)
    requires Closed(r.links) && a in r.links
  {
    && SameShape(r, s)
    && (x in r.links && !StrictlyBelow(r.links, a, x) ==> s.links[x] == r.links[x])
    && (x in r.joints && !MayRealign(r, a, x) ==> s.joints[x] == r.joints[x])
  }

  /** The callback on a link strictly below `a` keeps what the aligner may not rewrite. */
  lemma AlignLinkUntouched(geo: Geometry, target: Vector3, r: Robot, a: string, s: Robot,
                           n: string, x: string)
    requires Closed(r.links) && a in r.links && n in r.links && StrictlyBelow(r.links, a, n)
    requires Untouched(r, a, x, s)
    ensures Untouched(r, a, x, AlignLink(geo, target, s, n).1)
  {
    var s2 := AlignLink(geo, target, s, n).1;
    SameShapeTransitive(r, s, s2);
    if x in r.joints && s2.joints[x] != s.joints[x] {
      assert s.links[n] == r.links[n].(frame := s.links[n].frame);
      assert r.links[n].parentJoint == Some(x) || x in r.links[n].childJoints;
      assert MayRealign(r, a, x);
    }
  }

  /** What the aligner leaves alone: every link that is not strictly below the start link,
      the start link included, keeps its frame, and every joint that is neither the parent
      joint nor a child joint of a link strictly below the start link is unchanged. */
  lemma AlignAllFrame(geo: Geometry, r: Robot, rank: map<string, nat>, fromLinkName: string,
                      target: Vector3)
    requires Closed(r.links) && Ranked(r.links, rank)
    requires ResolveStartLink(r, fromLinkName).Some?
    ensures var a := ResolveStartLink(r, fromLinkName).value;
      var r' := AlignAll(geo, r, rank, fromLinkName, target).1;
      && r'.links.Keys == r.links.Keys && r'.joints.Keys == r.joints.Keys
      && (forall x :: x in r.links && !StrictlyBelow(r.links, a, x) ==> r'.links[x] == r.links[x])
      && (forall j :: j in r.joints && !MayRealign(r, a, j) ==> r'.joints[j] == r.joints[j])
  {
    var m := r.links;
    var a := ResolveStartLink(r, fromLinkName).value;
    var visit := AlignVisitor(geo, target);
    var q := (x: string, s: Robot) => Untouched(r, a, x, s);
    assert KeepsFactsBelow(m, a, false, visit, q) by {
      forall s: Robot, n: string, l: nat, k: nat | k > 0 && Below(m, a, n, k)
        ensures forall x :: q(x, s) ==> q(x, visit(s, n, l).1)
      {
        BelowRank(m, rank, a, n, k);
        assert StrictlyBelow(m, a, n);
        assert visit(s, n, l) == AlignLink(geo, target, s, n);
        forall x | q(x, s) ensures q(x, visit(s, n, l).1) {
          AlignLinkUntouched(geo, target, r, a, s, n, x);
        }
      }
    }
    TopDownKeepsBelow(m, rank, visit, q, r, a, false, 0);
    var r' := TopDown(m, rank, visit, r, a, false, 0).state;
    assert AlignAll(geo, r, rank, fromLinkName, target).1 == r';
    assert q(a, r);
    forall x | x in m && !StrictlyBelow(m, a, x) ensures r'.links[x] == m[x] {
      assert q(x, r);
    }
    forall j | j in r.joints && !MayRealign(r, a, j) ensures r'.joints[j] == r.joints[j] {
      assert q(j, r);
    }
  }

  /** The UrdfTraverser object: it owns the robot model and rewrites it in place. */
  class UrdfTraverser {
    var model: Robot

    constructor(model: Robot)
      ensures this.model == model
    {
      this.model := model;
    }

    /** allRotationsToAxis(p), the callback, as the source runs it on the object's model. */
    method AllRotationsToAxisAt(geo: Geometry, target: Vector3, name: string) returns (ret: int)
      modifies this
      ensures (ret, model) == AlignLink(geo, target, old(model), name)
    {
      if name !in model.links {
        return -1;
      }
      var link := model.links[name];
      if link.parentJoint.None? {
        return 1;
      }
      var jn := link.parentJoint.value;
      if jn !in model.joints {
        return 1;
      }
      var joint := model.joints[jn];
      if geo.aligned(joint.axis, target) {
        return 1;
      }
      var q := geo.rotationBetween(joint.axis, target);
      model := model.(joints := model.joints[jn := joint.(origin := geo.transform(joint.origin, q, false))]);
      var qi := geo.inverse(q);
      model := model.(links := model.links[name := link.(frame := geo.transform(link.frame, qi, true))]);
      ghost var start := model.joints;
      var i := 0;
      while i < |link.childJoints|
        invariant 0 <= i <= |link.childJoints|
        invariant model.links == old(model).links[name := link.(frame := geo.transform(link.frame, qi, true))]
        invariant model.root == old(model).root
        invariant RotateChildJoints(geo, start, link.childJoints, qi) ==
                  RotateChildJoints(geo, model.joints, link.childJoints[i..], qi)
      {
        assert link.childJoints[i..][1..] == link.childJoints[i + 1..];
        model := model.(joints := RotateJoint(geo, model.joints, link.childJoints[i], qi));
        i := i + 1;
      }
      assert model.joints == RotateChildJoints(geo, start, link.childJoints, qi);
      model := model.(joints := model.joints[jn := model.joints[jn].(axis := target)]);
      return 1;
    }

    /** allRotationsToAxis(fromLinkName, axis) on the object's model. */
    method AllRotationsToAxis(geo: Geometry, ghost rank: map<string, nat>, fromLinkName: string,
                              axis: Vector3) returns (ok: bool)
      requires Closed(model.links) && Ranked(model.links, rank)
      modifies this
      ensures (ok, model) == AlignAll(geo, old(model), rank, fromLinkName, axis)
    {
      var rootLink := fromLinkName;
      if rootLink == "" {
        rootLink := GetRootLinkName(model);
      }
      if rootLink !in model.links {
        return false;
      }
      var travRet, params := TraverseTopDown(model.links, rank, AlignVisitor(geo, axis), model,
                                             rootLink, false, 0);
      model := params;
      return travRet > 0;
    }
  }
}
