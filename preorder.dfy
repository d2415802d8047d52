/** The pre-order of a subtree: a link, then the subtrees of its child pointers in their
    stored order, null pointers skipped. This is the order the top-down walk promises; the
    lemmas say which links it lists, at which levels, once each and parents first. */
module PreOrders {
  import opened UrdfModel
  import opened TreeShape
  import opened Orders

  /** The subtree of `a` in pre-order, `a` at level `d`. */
  ghost function PreOrder(m: Links, rank: map<string, nat>, a: string, d: nat): seq<Visit>
    requires Closed(m) && Ranked(m, rank) && a in m
    decreases rank[a], 1
  {
    [Visit(a, d)] + PreOrderFrom(m, rank, a, 0, d + 1)
  }

  /** The subtrees of the child pointers of `p` from index `i` on, the children at level `d`. */
  ghost function PreOrderFrom(m: Links, rank: map<string, nat>, p: string, i: nat, d: nat): seq<Visit>
    requires Closed(m) && Ranked(m, rank) && p in m && i <= |m[p].childLinks|
    decreases rank[p], 0, |m[p].childLinks| - i
  {
    if i == |m[p].childLinks| then []
    else match m[p].childLinks[i]
      case None => PreOrderFrom(m, rank, p, i + 1, d)
      case Some(c) =>
        assert rank[c] < rank[p];
        PreOrder(m, rank, c, d) + PreOrderFrom(m, rank, p, i + 1, d)
  }

  /** `x` lies `n` steps below the target of one of the child pointers `i..` of `p`. */
  ghost predicate BelowChildFrom(m: Links, p: string, i: nat, x: string, n: nat)
    requires Closed(m) && p in m
  {
    exists k :: i <= k < |m[p].childLinks| && m[p].childLinks[k].Some? &&
                Below(m, m[p].childLinks[k].value, x, n)
  }

  lemma BelowChildFromParent(m: Links, p: string, i: nat, x: string, n: nat)
    requires Closed(m) && p in m && BelowChildFrom(m, p, i, x, n)
    ensures Below(m, p, x, n + 1)
  {
    var k :| i <= k < |m[p].childLinks| && m[p].childLinks[k].Some? &&
             Below(m, m[p].childLinks[k].value, x, n);
  }

  lemma {:induction false} PreOrderSound(m: Links, rank: map<string, nat>, a: string, d: nat, v: Visit)
    requires Closed(m) && Ranked(m, rank) && a in m && v in PreOrder(m, rank, a, d)
    ensures v.level >= d && Below(m, a, v.link, v.level - d)
    decreases rank[a], 1
  {
    if v != Visit(a, d) {
      PreOrderFromSound(m, rank, a, 0, d + 1, v);
      BelowChildFromParent(m, a, 0, v.link, v.level - (d + 1));
    }
  }

  lemma {:induction false} PreOrderFromSound(m: Links, rank: map<string, nat>, p: string, i: nat,
                                             d: nat, v: Visit)
    requires Closed(m) && Ranked(m, rank) && p in m && i <= |m[p].childLinks|
    requires v in PreOrderFrom(m, rank, p, i, d)
    ensures v.level >= d && BelowChildFrom(m, p, i, v.link, v.level - d)
    decreases rank[p], 0, |m[p].childLinks| - i
  {
    var kids := m[p].childLinks;
    assert i < |kids|;
    match kids[i]
    case None =>
      PreOrderFromSound(m, rank, p, i + 1, d, v);
    case Some(c) =>
      assert rank[c] < rank[p];
      if v in PreOrder(m, rank, c, d) {
        PreOrderSound(m, rank, c, d, v);
        assert kids[i].Some? && Below(m, kids[i].value, v.link, v.level - d);
      } else {
        PreOrderFromSound(m, rank, p, i + 1, d, v);
      }
  }

  /** The subtree of child pointer `j` is part of the pre-order from any `i <= j`. */
  lemma {:induction false} PreOrderFromContains(m: Links, rank: map<string, nat>, p: string, i: nat,
                                                j: nat, d: nat)
    requires Closed(m) && Ranked(m, rank) && p in m
    requires i <= j < |m[p].childLinks| && m[p].childLinks[j].Some?
    ensures forall v :: v in PreOrder(m, rank, m[p].childLinks[j].value, d) ==>
                        v in PreOrderFrom(m, rank, p, i, d)
    decreases j - i
  {
    if i < j {
      PreOrderFromContains(m, rank, p, i + 1, j, d);
    }
  }

  lemma {:induction false} PreOrderComplete(m: Links, rank: map<string, nat>, a: string, x: string,
                                            k: nat, d: nat)
    requires Closed(m) && Ranked(m, rank) && a in m && Below(m, a, x, k)
    ensures Visit(x, d + k) in PreOrder(m, rank, a, d)
    decreases k
  {
    if k > 0 {
      var i :| 0 <= i < |m[a].childLinks| && m[a].childLinks[i].Some? &&
               Below(m, m[a].childLinks[i].value, x, k - 1);
      PreOrderComplete(m, rank, m[a].childLinks[i].value, x, k - 1, d + 1);
      PreOrderFromContains(m, rank, a, 0, i, d + 1);
    }
  }

  /** The pre-order of `a` lists exactly the links of its subtree, each at `d` plus its
      distance from `a`. */
  lemma PreOrderMembers(m: Links, rank: map<string, nat>, a: string, d: nat)
    requires Closed(m) && Ranked(m, rank) && a in m
    ensures forall v :: v in PreOrder(m, rank, a, d) <==>
                        v.level >= d && Below(m, a, v.link, v.level - d)
  {
    forall v ensures v in PreOrder(m, rank, a, d) <==> v.level >= d && Below(m, a, v.link, v.level - d) {
      if v in PreOrder(m, rank, a, d) {
        PreOrderSound(m, rank, a, d, v);
      }
      if v.level >= d && Below(m, a, v.link, v.level - d) {
        PreOrderComplete(m, rank, a, v.link, v.level - d, d);
      }
    }
  }

  /** A link of the pre-order from a child pointer of `p` lies below `p`. */
  lemma PreOrderFromBelow(m: Links, rank: map<string, nat>, p: string, i: nat, d: nat, v: Visit)
    requires Closed(m) && Ranked(m, rank) && p in m && i <= |m[p].childLinks|
    requires v in PreOrderFrom(m, rank, p, i, d)
    ensures v.level >= d && Below(m, p, v.link, v.level - d + 1)
  {
    PreOrderFromSound(m, rank, p, i, d, v);
    BelowChildFromParent(m, p, i, v.link, v.level - d);
  }

  /** In a tree, the subtree of child pointer `i` of `p` and those of the later pointers share
      no link, and no link of the later ones is a parent of a link of the first. */
  lemma PreSubtreesApart(m: Links, rank: map<string, nat>, p: string, i: nat, d: nat)
    requires Tree(m) && Ranked(m, rank) && p in m
    requires i < |m[p].childLinks| && m[p].childLinks[i].Some?
    ensures forall v, w :: v in PreOrder(m, rank, m[p].childLinks[i].value, d) &&
                           w in PreOrderFrom(m, rank, p, i + 1, d) ==>
                           v.link != w.link && !ChildOf(m, w.link, v.link)
  {
    var kids := m[p].childLinks;
    var c := kids[i].value;
    assert ChildOf(m, p, c) by { assert kids[i] == Some(c); }
    forall v, w | v in PreOrder(m, rank, c, d) && w in PreOrderFrom(m, rank, p, i + 1, d)
      ensures v.link != w.link && !ChildOf(m, w.link, v.link)
    {
      PreOrderSound(m, rank, c, d, v);
      PreOrderFromSound(m, rank, p, i + 1, d, w);
      var k :| i + 1 <= k < |kids| && kids[k].Some? && Below(m, kids[k].value, w.link, w.level - d);
      var c2 := kids[k].value;
      assert ChildOf(m, p, c2) by { assert kids[k] == Some(c2); }
      assert c != c2 by { assert kids[i] != kids[k]; }
      SiblingsDisjoint(m, rank, p, c, c2, v.link, v.level - d, w.level - d);
      if ChildOf(m, w.link, v.link) {
        BelowExtend(m, c2, w.link, v.link, w.level - d);
        SiblingsDisjoint(m, rank, p, c, c2, v.link, v.level - d, w.level - d + 1);
        assert false;
      }
    }
  }

  /** In a tree the pre-order of a subtree lists no link twice. */
  lemma {:induction false} PreOrderDistinct(m: Links, rank: map<string, nat>, a: string, d: nat)
    requires Tree(m) && Ranked(m, rank) && a in m
    ensures LinksDistinct(PreOrder(m, rank, a, d))
    decreases rank[a], 1
  {
    var rest := PreOrderFrom(m, rank, a, 0, d + 1);
    PreOrderFromDistinct(m, rank, a, 0, d + 1);
    forall w | w in rest ensures w.link != a {
      PreOrderFromBelow(m, rank, a, 0, d + 1, w);
      BelowRank(m, rank, a, w.link, w.level - d);
    }
    DistinctConcat([Visit(a, d)], rest);
  }

  lemma {:induction false} PreOrderFromDistinct(m: Links, rank: map<string, nat>, p: string, i: nat,
                                                d: nat)
    requires Tree(m) && Ranked(m, rank) && p in m && i <= |m[p].childLinks|
    ensures LinksDistinct(PreOrderFrom(m, rank, p, i, d))
    decreases rank[p], 0, |m[p].childLinks| - i
  {
    var kids := m[p].childLinks;
    if i < |kids| {
      PreOrderFromDistinct(m, rank, p, i + 1, d);
      if kids[i].Some? {
        var c := kids[i].value;
        assert rank[c] < rank[p];
        PreOrderDistinct(m, rank, c, d);
        PreSubtreesApart(m, rank, p, i, d);
        DistinctConcat(PreOrder(m, rank, c, d), PreOrderFrom(m, rank, p, i + 1, d));
      }
    }
  }

  /** In a tree the pre-order of a subtree lists every link before its children. */
  lemma {:induction false} PreOrderParentsFirst(m: Links, rank: map<string, nat>, a: string, d: nat)
    requires Tree(m) && Ranked(m, rank) && a in m
    ensures ParentsFirst(m, PreOrder(m, rank, a, d))
    decreases rank[a], 1
  {
    var rest := PreOrderFrom(m, rank, a, 0, d + 1);
    PreOrderFromParentsFirst(m, rank, a, 0, d + 1);
    BelowNotParent(m, rank, a, a, 0);
    forall w | w in rest ensures !ChildOf(m, w.link, a) {
      PreOrderFromBelow(m, rank, a, 0, d + 1, w);
      BelowNotParent(m, rank, a, w.link, w.level - d);
    }
    ParentsFirstConcat(m, [Visit(a, d)], rest);
  }

  lemma {:induction false} PreOrderFromParentsFirst(m: Links, rank: map<string, nat>, p: string,
                                                    i: nat, d: nat)
    requires Tree(m) && Ranked(m, rank) && p in m && i <= |m[p].childLinks|
    ensures ParentsFirst(m, PreOrderFrom(m, rank, p, i, d))
    decreases rank[p], 0, |m[p].childLinks| - i
  {
    var kids := m[p].childLinks;
    if i < |kids| {
      PreOrderFromParentsFirst(m, rank, p, i + 1, d);
      if kids[i].Some? {
        var c := kids[i].value;
        assert rank[c] < rank[p];
        PreOrderParentsFirst(m, rank, c, d);
        PreSubtreesApart(m, rank, p, i, d);
        ParentsFirstConcat(m, PreOrder(m, rank, c, d), PreOrderFrom(m, rank, p, i + 1, d));
      }
    }
  }
}
