/** The post-order of a subtree as the bottom-up walk takes it: the subtrees of a link's
    children in ascending name order, each child name once, then the link. The lemmas say
    which links it lists, at which levels, once each and children first. */
module PostOrders {
  import opened UrdfModel
  import opened SortedNames
  import opened Traversal
  import opened TreeShape
  import opened Orders

  /** What the post-order needs: child pointers that are never null and always resolve. */
  ghost predicate PostReady(m: Links, rank: map<string, nat>)
  {
    Closed(m) && BottomUpReady(m, rank)
  }

  /** The subtree of `a` in post-order, `a` at level `d`. */
  ghost function PostOrder(m: Links, rank: map<string, nat>, a: string, d: nat): seq<Visit>
    requires PostReady(m, rank) && a in m
    decreases rank[a], 1
  {
    PostOrderFrom(m, rank, a, 0, d + 1) + [Visit(a, d)]
  }

  /** The subtrees of the sorted child names `i..` of `p`, the children at level `d`. */
  ghost function PostOrderFrom(m: Links, rank: map<string, nat>, p: string, i: nat, d: nat): seq<Visit>
    requires PostReady(m, rank) && p in m && i <= |SortedChildNames(m[p])|
    decreases rank[p], 0, |SortedChildNames(m[p])| - i
  {
    var names := SortedChildNames(m[p]);
    if i == |names| then []
    else
      SortedChildNamesSpec(m[p]);
      assert names[i] in names;
      ChildInModel(m, p, names[i]);
      ChildRank(m, rank, p, names[i]);
      PostOrder(m, rank, names[i], d) + PostOrderFrom(m, rank, p, i + 1, d)
  }

  /** Every sorted child name of `p` is a child of `p` in the model. */
  lemma NamesAreChildren(m: Links, rank: map<string, nat>, p: string)
    requires PostReady(m, rank) && p in m
    ensures forall k :: 0 <= k < |SortedChildNames(m[p])| ==>
              ChildOf(m, p, SortedChildNames(m[p])[k]) && SortedChildNames(m[p])[k] in m
  {
    var names := SortedChildNames(m[p]);
    SortedChildNamesSpec(m[p]);
    forall k | 0 <= k < |names| ensures ChildOf(m, p, names[k]) && names[k] in m {
      assert names[k] in names;
      ChildInModel(m, p, names[k]);
    }
  }

  lemma NameIsChild(m: Links, rank: map<string, nat>, p: string, k: nat)
    requires PostReady(m, rank) && p in m && k < |SortedChildNames(m[p])|
    ensures ChildOf(m, p, SortedChildNames(m[p])[k]) && SortedChildNames(m[p])[k] in m
  {
    NamesAreChildren(m, rank, p);
  }

  /** `x` lies `n` steps below one of the sorted child names `i..` of `p`. */
  ghost predicate BelowNameFrom(m: Links, rank: map<string, nat>, p: string, i: nat, x: string, n: nat)
    requires PostReady(m, rank) && p in m
  {
    exists k :: i <= k < |SortedChildNames(m[p])| && SortedChildNames(m[p])[k] in m &&
                Below(m, SortedChildNames(m[p])[k], x, n)
  }

  lemma BelowNameFromParent(m: Links, rank: map<string, nat>, p: string, i: nat, x: string, n: nat)
    requires PostReady(m, rank) && p in m && BelowNameFrom(m, rank, p, i, x, n)
    ensures Below(m, p, x, n + 1)
  {
    var names := SortedChildNames(m[p]);
    var k :| i <= k < |names| && names[k] in m && Below(m, names[k], x, n);
    NamesAreChildren(m, rank, p);
    assert ChildOf(m, p, names[k]);
    var j :| 0 <= j < |m[p].childLinks| && m[p].childLinks[j] == Some(names[k]);
    assert m[p].childLinks[j].Some? && Below(m, m[p].childLinks[j].value, x, n);
  }

  lemma {:induction false} PostOrderSound(m: Links, rank: map<string, nat>, a: string, d: nat, v: Visit)
    requires PostReady(m, rank) && a in m && v in PostOrder(m, rank, a, d)
    ensures v.level >= d && Below(m, a, v.link, v.level - d)
    decreases rank[a], 1
  {
    if v != Visit(a, d) {
      PostOrderFromSound(m, rank, a, 0, d + 1, v);
      BelowNameFromParent(m, rank, a, 0, v.link, v.level - (d + 1));
    }
  }

  lemma {:induction false} PostOrderFromSound(m: Links, rank: map<string, nat>, p: string, i: nat,
                                              d: nat, v: Visit)
    requires PostReady(m, rank) && p in m && i <= |SortedChildNames(m[p])|
    requires v in PostOrderFrom(m, rank, p, i, d)
    ensures v.level >= d && BelowNameFrom(m, rank, p, i, v.link, v.level - d)
    decreases rank[p], 0, |SortedChildNames(m[p])| - i
  {
    var names := SortedChildNames(m[p]);
    NamesAreChildren(m, rank, p);
    var c := names[i];
    ChildRank(m, rank, p, c);
    if v in PostOrder(m, rank, c, d) {
      PostOrderSound(m, rank, c, d, v);
    } else {
      PostOrderFromSound(m, rank, p, i + 1, d, v);
    }
  }

  /** The subtree of sorted child name `j` is part of the post-order from any `i <= j`. */
  lemma {:induction false} PostOrderFromContains(m: Links, rank: map<string, nat>, p: string, i: nat,
                                                 j: nat, d: nat)
    requires PostReady(m, rank) && p in m && i <= j < |SortedChildNames(m[p])|
    requires SortedChildNames(m[p])[j] in m
    ensures forall v :: v in PostOrder(m, rank, SortedChildNames(m[p])[j], d) ==>
                        v in PostOrderFrom(m, rank, p, i, d)
    decreases j - i
  {
    if i < j {
      PostOrderFromContains(m, rank, p, i + 1, j, d);
    }
  }

  lemma {:induction false} PostOrderComplete(m: Links, rank: map<string, nat>, a: string, x: string,
                                             k: nat, d: nat)
    requires PostReady(m, rank) && a in m && Below(m, a, x, k)
    ensures Visit(x, d + k) in PostOrder(m, rank, a, d)
    decreases k
  {
    if k > 0 {
      var i :| 0 <= i < |m[a].childLinks| && m[a].childLinks[i].Some? &&
               Below(m, m[a].childLinks[i].value, x, k - 1);
      var c := m[a].childLinks[i].value;
      PostOrderComplete(m, rank, c, x, k - 1, d + 1);
      SortedChildNamesSpec(m[a]);
      assert IsChild(m[a], c) by { assert m[a].childLinks[i] == Some(c); }
      var names := SortedChildNames(m[a]);
      var j :| 0 <= j < |names| && names[j] == c;
      PostOrderFromContains(m, rank, a, 0, j, d + 1);
    }
  }

  /** The post-order of `a` lists exactly the links of its subtree, each at `d` plus its
      distance from `a`. */
  lemma PostOrderMembers(m: Links, rank: map<string, nat>, a: string, d: nat)
    requires PostReady(m, rank) && a in m
    ensures forall v :: v in PostOrder(m, rank, a, d) <==>
                        v.level >= d && Below(m, a, v.link, v.level - d)
  {
    forall v ensures v in PostOrder(m, rank, a, d) <==> v.level >= d && Below(m, a, v.link, v.level - d) {
      if v in PostOrder(m, rank, a, d) {
        PostOrderSound(m, rank, a, d, v);
      }
      if v.level >= d && Below(m, a, v.link, v.level - d) {
        PostOrderComplete(m, rank, a, v.link, v.level - d, d);
      }
    }
  }

  /** A link of the post-order from a child name of `p` lies below `p`. */
  lemma PostOrderFromBelow(m: Links, rank: map<string, nat>, p: string, i: nat, d: nat, v: Visit)
    requires PostReady(m, rank) && p in m && i <= |SortedChildNames(m[p])|
    requires v in PostOrderFrom(m, rank, p, i, d)
    ensures v.level >= d && Below(m, p, v.link, v.level - d + 1)
  {
    PostOrderFromSound(m, rank, p, i, d, v);
    BelowNameFromParent(m, rank, p, i, v.link, v.level - d);
  }

  /** When each link is the child of at most one link, the subtree of sorted child name `i`
      of `p` and those of the later names share no link, and no link of the first is a
      parent of a link of the later ones. Duplicate child pointers do no harm: the name set
      holds each child once. */
  lemma PostSubtreesApart(m: Links, rank: map<string, nat>, p: string, i: nat, d: nat)
    requires PostReady(m, rank) && UniqueParents(m) && p in m && i < |SortedChildNames(m[p])|
    requires SortedChildNames(m[p])[i] in m
    ensures forall v, w :: v in PostOrder(m, rank, SortedChildNames(m[p])[i], d) &&
                           w in PostOrderFrom(m, rank, p, i + 1, d) ==>
                           v.link != w.link && !ChildOf(m, v.link, w.link)
  {
    var names := SortedChildNames(m[p]);
    var c := names[i];
    NamesAreChildren(m, rank, p);
    SortedChildNamesSpec(m[p]);
    StrictlySortedDistinct(names);
    forall v, w | v in PostOrder(m, rank, c, d) && w in PostOrderFrom(m, rank, p, i + 1, d)
      ensures v.link != w.link && !ChildOf(m, v.link, w.link)
    {
      PostOrderFromSound(m, rank, p, i + 1, d, w);
      var k :| i + 1 <= k < |names| && names[k] in m && Below(m, names[k], w.link, w.level - d);
      assert names[i] != names[k];
      SiblingSubtreesApart(m, rank, p, c, names[k], d, v, w);
    }
  }

  /** One pair of visits from the subtrees of two different children of `p`. */
  lemma SiblingSubtreesApart(m: Links, rank: map<string, nat>, p: string, c: string, c2: string,
                             d: nat, v: Visit, w: Visit)
    requires PostReady(m, rank) && UniqueParents(m)
    requires ChildOf(m, p, c) && ChildOf(m, p, c2) && c != c2 && c in m && c2 in m
    requires v in PostOrder(m, rank, c, d) && w.level >= d && Below(m, c2, w.link, w.level - d)
    ensures v.link != w.link && !ChildOf(m, v.link, w.link)
  {
    PostOrderSound(m, rank, c, d, v);
    SiblingsDisjoint(m, rank, p, c, c2, v.link, v.level - d, w.level - d);
    if ChildOf(m, v.link, w.link) {
      BelowExtend(m, c, v.link, w.link, v.level - d);
      SiblingsDisjoint(m, rank, p, c, c2, w.link, v.level - d + 1, w.level - d);
      assert false;
    }
  }

  /** When each link is the child of at most one link, the post-order of a subtree lists no
      link twice. */
  lemma {:induction false} PostOrderDistinct(m: Links, rank: map<string, nat>, a: string, d: nat)
    requires PostReady(m, rank) && UniqueParents(m) && a in m
    ensures LinksDistinct(PostOrder(m, rank, a, d))
    decreases rank[a], 1
  {
    var rest := PostOrderFrom(m, rank, a, 0, d + 1);
    PostOrderFromDistinct(m, rank, a, 0, d + 1);
    forall v | v in rest ensures v.link != a {
      PostOrderFromBelow(m, rank, a, 0, d + 1, v);
      BelowRank(m, rank, a, v.link, v.level - d);
    }
    DistinctConcat(rest, [Visit(a, d)]);
  }

  lemma {:induction false} PostOrderFromDistinct(m: Links, rank: map<string, nat>, p: string, i: nat,
                                                 d: nat)
    requires PostReady(m, rank) && UniqueParents(m) && p in m && i <= |SortedChildNames(m[p])|
    ensures LinksDistinct(PostOrderFrom(m, rank, p, i, d))
    decreases rank[p], 0, |SortedChildNames(m[p])| - i
  {
    var names := SortedChildNames(m[p]);
    if i < |names| {
      NamesAreChildren(m, rank, p);
      var c := names[i];
      ChildRank(m, rank, p, c);
      PostOrderFromDistinct(m, rank, p, i + 1, d);
      PostOrderDistinct(m, rank, c, d);
      PostSubtreesApart(m, rank, p, i, d);
      DistinctConcat(PostOrder(m, rank, c, d), PostOrderFrom(m, rank, p, i + 1, d));
    }
  }

  /** When each link is the child of at most one link, the post-order of a subtree lists
      every link after its children. */
  lemma {:induction false} PostOrderChildrenFirst(m: Links, rank: map<string, nat>, a: string, d: nat)
    requires PostReady(m, rank) && UniqueParents(m) && a in m
    ensures ChildrenFirst(m, PostOrder(m, rank, a, d))
    decreases rank[a], 1
  {
    var rest := PostOrderFrom(m, rank, a, 0, d + 1);
    PostOrderFromChildrenFirst(m, rank, a, 0, d + 1);
    BelowNotParent(m, rank, a, a, 0);
    forall v | v in rest ensures !ChildOf(m, v.link, a) {
      PostOrderFromBelow(m, rank, a, 0, d + 1, v);
      BelowNotParent(m, rank, a, v.link, v.level - d);
    }
    ChildrenFirstConcat(m, rest, [Visit(a, d)]);
  }

  lemma {:induction false} PostOrderFromChildrenFirst(m: Links, rank: map<string, nat>, p: string,
                                                      i: nat, d: nat)
    requires PostReady(m, rank) && UniqueParents(m) && p in m && i <= |SortedChildNames(m[p])|
    ensures ChildrenFirst(m, PostOrderFrom(m, rank, p, i, d))
    decreases rank[p], 0, |SortedChildNames(m[p])| - i
  {
    var names := SortedChildNames(m[p]);
    if i < |names| {
      NamesAreChildren(m, rank, p);
      var c := names[i];
      ChildRank(m, rank, p, c);
      PostOrderFromChildrenFirst(m, rank, p, i + 1, d);
      PostOrderChildrenFirst(m, rank, c, d);
      PostSubtreesApart(m, rank, p, i, d);
      ChildrenFirstConcat(m, PostOrder(m, rank, c, d), PostOrderFrom(m, rank, p, i + 1, d));
    }
  }
}
