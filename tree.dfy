/** Paths in the link tree, independent of any walk: `Below(m, a, x, k)` says that following
    child pointers from link `a` reaches link `x` in exactly `k` steps. In a tree (each link
    the child of at most one link) the links above a given link form a single chain, which is
    what makes every walk visit each link once. */
module TreeShape {
  import opened UrdfModel

  ghost predicate Below(m: Links, a: string, x: string, k: nat)
    requires Closed(m) && a in m
    decreases k
  {
    if k == 0 then x == a
    else exists i :: 0 <= i < |m[a].childLinks| && m[a].childLinks[i].Some? &&
                     Below(m, m[a].childLinks[i].value, x, k - 1)
  }

  /** A link `k` steps below `a` is a link of the model and ranks at least `k` below `a`. */
  lemma {:induction false} BelowRank(m: Links, rank: map<string, nat>, a: string, x: string, k: nat)
    requires Closed(m) && Ranked(m, rank) && a in m && Below(m, a, x, k)
    ensures x in m && rank[x] + k <= rank[a]
    decreases k
  {
    if k > 0 {
      var i :| 0 <= i < |m[a].childLinks| && m[a].childLinks[i].Some? &&
               Below(m, m[a].childLinks[i].value, x, k - 1);
      var c := m[a].childLinks[i].value;
      BelowRank(m, rank, c, x, k - 1);
    }
  }

  /** The last step of a path: a link `k + 1` steps below `a` is the child of a link `k`
      steps below `a`. */
  lemma {:induction false} BelowLastStep(m: Links, a: string, x: string, k: nat)
    requires Closed(m) && a in m && Below(m, a, x, k + 1)
    ensures exists p :: Below(m, a, p, k) && ChildOf(m, p, x)
    decreases k
  {
    var i :| 0 <= i < |m[a].childLinks| && m[a].childLinks[i].Some? &&
             Below(m, m[a].childLinks[i].value, x, k);
    var c := m[a].childLinks[i].value;
    if k == 0 {
      assert Below(m, a, a, 0) && ChildOf(m, a, x);
    } else {
      BelowLastStep(m, c, x, k - 1);
      var p :| Below(m, c, p, k - 1) && ChildOf(m, p, x);
      assert Below(m, a, p, k);
    }
  }

  /** A path extended by one child pointer. */
  lemma {:induction false} BelowExtend(m: Links, a: string, p: string, x: string, k: nat)
    requires Closed(m) && a in m && Below(m, a, p, k) && ChildOf(m, p, x)
    ensures Below(m, a, x, k + 1)
    decreases k
  {
    if k == 0 {
      var i :| 0 <= i < |m[p].childLinks| && m[p].childLinks[i] == Some(x);
      assert m[a].childLinks[i].value == x;
    } else {
      var i :| 0 <= i < |m[a].childLinks| && m[a].childLinks[i].Some? &&
               Below(m, m[a].childLinks[i].value, p, k - 1);
      BelowExtend(m, m[a].childLinks[i].value, p, x, k - 1);
    }
  }

  /** In a tree, two links above the same link lie on one chain: the nearer one is below
      the farther one. */
  lemma {:induction false} AncestorsChain(m: Links, a: string, b: string, x: string, i: nat, j: nat)
    requires Closed(m) && UniqueParents(m) && a in m && b in m
    requires Below(m, a, x, i) && Below(m, b, x, j) && i <= j
    ensures Below(m, b, a, j - i)
    decreases i
  {
    if i > 0 {
      BelowLastStep(m, a, x, i - 1);
      var p :| Below(m, a, p, i - 1) && ChildOf(m, p, x);
      BelowLastStep(m, b, x, j - 1);
      var q :| Below(m, b, q, j - 1) && ChildOf(m, q, x);
      assert p == q;
      AncestorsChain(m, a, b, p, i - 1, j - 1);
    }
  }

  /** In a tree the subtrees of two different children of one link share no link. */
  lemma SiblingsDisjoint(m: Links, rank: map<string, nat>, p: string, c1: string, c2: string,
                         x: string, i: nat, j: nat)
    requires Closed(m) && UniqueParents(m) && Ranked(m, rank)
    requires ChildOf(m, p, c1) && ChildOf(m, p, c2) && c1 != c2
    requires c1 in m && c2 in m
    ensures Below(m, c1, x, i) ==> !Below(m, c2, x, j)
  {
    if Below(m, c1, x, i) && Below(m, c2, x, j) {
      ChildRank(m, rank, p, c1);
      ChildRank(m, rank, p, c2);
      if i <= j {
        ParentBelowSibling(m, rank, p, c1, c2, x, i, j);
        BelowRank(m, rank, c2, p, j - i - 1);
      } else {
        ParentBelowSibling(m, rank, p, c2, c1, x, j, i);
        BelowRank(m, rank, c1, p, i - j - 1);
      }
      assert false;
    }
  }

  /** If the subtrees of two children of `p` met, `p` would lie below one of them. */
  lemma ParentBelowSibling(m: Links, rank: map<string, nat>, p: string, c1: string, c2: string,
                           x: string, i: nat, j: nat)
    requires Closed(m) && UniqueParents(m) && Ranked(m, rank)
    requires ChildOf(m, p, c1) && c1 != c2 && c1 in m && c2 in m
    requires Below(m, c1, x, i) && Below(m, c2, x, j) && i <= j
    ensures j > i && Below(m, c2, p, j - i - 1)
  {
    AncestorsChain(m, c1, c2, x, i, j);
    BelowLastStep(m, c2, c1, j - i - 1);
    var q :| Below(m, c2, q, j - i - 1) && ChildOf(m, q, c1);
    assert q == p;
  }

  /** Acyclicity: no link of a subtree is a parent of its top. */
  lemma BelowNotParent(m: Links, rank: map<string, nat>, a: string, x: string, k: nat)
    requires Closed(m) && Ranked(m, rank) && a in m && Below(m, a, x, k)
    ensures !ChildOf(m, x, a)
  {
    BelowRank(m, rank, a, x, k);
    if ChildOf(m, x, a) {
      ChildRank(m, rank, x, a);
      assert false;
    }
  }

  /** Every link of a subtree is at one distance from its top. */
  lemma DistanceUnique(m: Links, rank: map<string, nat>, a: string, x: string, i: nat, j: nat)
    requires Closed(m) && UniqueParents(m) && Ranked(m, rank) && a in m
    requires Below(m, a, x, i) && Below(m, a, x, j)
    ensures i == j
  {
    if i < j {
      AncestorsChain(m, a, a, x, i, j);
      BelowRank(m, rank, a, a, j - i);
    } else if j < i {
      AncestorsChain(m, a, a, x, j, i);
      BelowRank(m, rank, a, a, i - j);
    }
  }

  /** Paths follow child pointers only: two models with the same links and the same child
      pointers have the same paths. */
  lemma {:induction false} BelowSameTree(m: Links, m': Links, a: string, x: string, k: nat)
    requires Closed(m) && Closed(m') && a in m && m'.Keys == m.Keys
    requires forall l :: l in m ==> m'[l].childLinks == m[l].childLinks
    ensures Below(m', a, x, k) ==> Below(m, a, x, k)
    decreases k
  {
    if k > 0 && Below(m', a, x, k) {
      var i :| 0 <= i < |m'[a].childLinks| && m'[a].childLinks[i].Some? &&
               Below(m', m'[a].childLinks[i].value, x, k - 1);
      BelowSameTree(m, m', m'[a].childLinks[i].value, x, k - 1);
      assert m[a].childLinks[i].Some? && Below(m, m[a].childLinks[i].value, x, k - 1);
    }
  }
}
