/** What the two walks hand to the callback, stated against the reference orders: with a
    callback that always continues, the top-down walk hands over the pre-order of the subtree
    and the bottom-up walk its post-order; with any callback, the top-down walk hands over a
    part of the pre-order and the bottom-up walk a prefix of the post-order, so no link is
    handed over twice and each at its distance from the start link. */
module WalkOrders {
  import opened UrdfModel
  import opened SortedNames
  import opened Traversal
  import opened Signals
  import opened TreeShape
  import opened Orders
  import opened PreOrders
  import opened PostOrders

  /** From every parameters object satisfying `inv`, the callback asks the walk to go on for
      every link of `m`, and leaves `inv` holding. With `inv` always true: a callback that
      always continues. */
  ghost predicate ContinuesWhile<S(!new)>(m: Links, visit: Visitor<S>, inv: S -> bool)
  {
    forall s, n, l :: inv(s) && n in m ==> visit(s, n, l).0 > 0 && inv(visit(s, n, l).1)
  }

  // ---------------------------------------------------------------------------
  // Top-down

  /** With a callback that always continues, the top-down walk returns 1 when the start link
      has no null child pointer and 0 otherwise: a null pointer further down ends only the
      loop it is in, and the code 0 of that subtree lets the siblings go on. */
  lemma {:induction false} TopDownContinue<S(!new)>(m: Links, rank: map<string, nat>,
                                                    visit: Visitor<S>, inv: S -> bool, s: S,
                                                    name: string, includeLink: bool, level: nat)
    requires Closed(m) && Ranked(m, rank) && name in m
    requires ContinuesWhile(m, visit, inv) && inv(s)
    ensures var w := TopDown(m, rank, visit, s, name, includeLink, level);
      && inv(w.state)
      && w.code == (if forall k :: 0 <= k < |m[name].childLinks| ==> m[name].childLinks[k].Some?
                    then 1 else 0)
    decreases rank[name], 1
  {
    if includeLink {
      var (r, s1) := visit(s, name, level);
      ChildrenContinue(m, rank, visit, inv, s1, name, 0, level + 1);
    } else {
      ChildrenContinue(m, rank, visit, inv, s, name, 0, level + 1);
    }
  }

  lemma {:induction false} ChildrenContinue<S(!new)>(m: Links, rank: map<string, nat>,
                                                     visit: Visitor<S>, inv: S -> bool, s: S,
                                                     p: string, i: nat, level: nat)
    requires Closed(m) && Ranked(m, rank) && p in m && i <= |m[p].childLinks|
    requires ContinuesWhile(m, visit, inv) && inv(s)
    ensures var w := Children(m, rank, visit, s, p, i, level);
      && inv(w.state)
      && w.code == (if forall k :: i <= k < |m[p].childLinks| ==> m[p].childLinks[k].Some?
                    then 1 else 0)
    decreases rank[p], 0, |m[p].childLinks| - i
  {
    var kids := m[p].childLinks;
    if i < |kids| && kids[i].Some? {
      var c := kids[i].value;
      var (r, s1) := visit(s, c, level);
      assert rank[c] < rank[p];
      TopDownContinue(m, rank, visit, inv, s1, c, false, level);
      var sub := TopDown(m, rank, visit, s1, c, false, level);
      ChildrenContinue(m, rank, visit, inv, sub.state, p, i + 1, level);
    }
  }

  /** With a callback that always continues and no null child pointer, the top-down walk
      returns 1 and hands over the whole subtree in pre-order: the start link first when
      `includeLink`, every link at the start level plus its distance from the start link. */
  lemma {:induction false} TopDownPreOrder<S(!new)>(m: Links, rank: map<string, nat>,
                                                    visit: Visitor<S>, inv: S -> bool, s: S,
                                                    a: string, includeLink: bool, level: nat)
    requires Closed(m) && NoNullChildren(m) && Ranked(m, rank) && a in m
    requires inv(s) && ContinuesWhile(m, visit, inv)
    ensures var w := TopDown(m, rank, visit, s, a, includeLink, level);
      && w.code == 1
      && inv(w.state)
      && Visited(w.trace) == (if includeLink then PreOrder(m, rank, a, level)
                              else PreOrderFrom(m, rank, a, 0, level + 1))
    decreases rank[a], 1
  {
    if includeLink {
      var (r, s1) := visit(s, a, level);
      ChildrenPreOrder(m, rank, visit, inv, s1, a, 0, level + 1);
      VisitedConcat([Call(a, level, r)], Children(m, rank, visit, s1, a, 0, level + 1).trace);
    } else {
      ChildrenPreOrder(m, rank, visit, inv, s, a, 0, level + 1);
    }
  }

  lemma {:induction false} ChildrenPreOrder<S(!new)>(m: Links, rank: map<string, nat>,
                                                     visit: Visitor<S>, inv: S -> bool, s: S,
                                                     p: string, i: nat, level: nat)
    requires Closed(m) && NoNullChildren(m) && Ranked(m, rank) && p in m
    requires i <= |m[p].childLinks| && inv(s) && ContinuesWhile(m, visit, inv)
    ensures var w := Children(m, rank, visit, s, p, i, level);
      w.code == 1 && inv(w.state) && Visited(w.trace) == PreOrderFrom(m, rank, p, i, level)
    decreases rank[p], 0, |m[p].childLinks| - i
  {
    var kids := m[p].childLinks;
    if i < |kids| {
      var c := kids[i].value;
      var (r, s1) := visit(s, c, level);
      assert r > 0 && inv(s1);
      assert rank[c] < rank[p];
      TopDownPreOrder(m, rank, visit, inv, s1, c, false, level);
      var sub := TopDown(m, rank, visit, s1, c, false, level);
      ChildrenPreOrder(m, rank, visit, inv, sub.state, p, i + 1, level);
      var rest := Children(m, rank, visit, sub.state, p, i + 1, level);
      var head := [Call(c, level, r)];
      assert Children(m, rank, visit, s, p, i, level) ==
             Walk(rest.code, rest.state, head + sub.trace + rest.trace);
      assert PreOrderFrom(m, rank, p, i, level) ==
             [Visit(c, level)] + PreOrderFrom(m, rank, c, 0, level + 1) + PreOrderFrom(m, rank, p, i + 1, level);
      VisitedConcat(head + sub.trace, rest.trace);
      VisitedConcat(head, sub.trace);
      assert Visited(head) == [Visit(c, level)];
    }
  }

  /** With any callback, the top-down walk hands over the pre-order with some links left out
      (the rest of a loop after a child that returned 0, a null pointer or a failure). */
  lemma {:induction false} TopDownWithinPreOrder<S>(m: Links, rank: map<string, nat>, visit: Visitor<S>,
                                                    s: S, a: string, includeLink: bool, level: nat)
    requires Closed(m) && Ranked(m, rank) && a in m
    ensures Subseq(Visited(TopDown(m, rank, visit, s, a, includeLink, level).trace),
                   if includeLink then PreOrder(m, rank, a, level)
                   else PreOrderFrom(m, rank, a, 0, level + 1))
    decreases rank[a], 1
  {
    if includeLink {
      var (r, s1) := visit(s, a, level);
      var head := [Visit(a, level)];
      var rest := PreOrderFrom(m, rank, a, 0, level + 1);
      assert Visited([Call(a, level, r)]) == head;
      if r <= 0 {
        PrefixSubseq(head, head + rest);
      } else {
        var w := Children(m, rank, visit, s1, a, 0, level + 1);
        ChildrenWithinPreOrder(m, rank, visit, s1, a, 0, level + 1);
        VisitedConcat([Call(a, level, r)], w.trace);
        SubseqRefl(head);
        SubseqConcat(head, head, Visited(w.trace), rest);
      }
    } else {
      ChildrenWithinPreOrder(m, rank, visit, s, a, 0, level + 1);
    }
  }

  lemma {:induction false} ChildrenWithinPreOrder<S>(m: Links, rank: map<string, nat>, visit: Visitor<S>,
                                                     s: S, p: string, i: nat, level: nat)
    requires Closed(m) && Ranked(m, rank) && p in m && i <= |m[p].childLinks|
    ensures Subseq(Visited(Children(m, rank, visit, s, p, i, level).trace),
                   PreOrderFrom(m, rank, p, i, level))
    decreases rank[p], 0, |m[p].childLinks| - i
  {
    var kids := m[p].childLinks;
    if i < |kids| && kids[i].Some? {
      var c := kids[i].value;
      var (r, s1) := visit(s, c, level);
      var head := [Visit(c, level)];
      var below := PreOrderFrom(m, rank, c, 0, level + 1);
      var later := PreOrderFrom(m, rank, p, i + 1, level);
      assert PreOrderFrom(m, rank, p, i, level) == head + below + later;
      assert Visited([Call(c, level, r)]) == head;
      if r <= 0 {
        PrefixSubseq(head, head + below + later);
      } else {
        assert rank[c] < rank[p];
        TopDownWithinPreOrder(m, rank, visit, s1, c, false, level);
        var sub := TopDown(m, rank, visit, s1, c, false, level);
        VisitedConcat([Call(c, level, r)], sub.trace);
        SubseqRefl(head);
        SubseqConcat(head, head, Visited(sub.trace), below);
        if sub.code < 0 {
          SubseqConcat(head + Visited(sub.trace), head + below, [], later);
          assert head + Visited(sub.trace) + [] == head + Visited(sub.trace);
        } else {
          var rest := Children(m, rank, visit, sub.state, p, i + 1, level);
          ChildrenWithinPreOrder(m, rank, visit, sub.state, p, i + 1, level);
          VisitedConcat([Call(c, level, r)] + sub.trace, rest.trace);
          SubseqConcat(head + Visited(sub.trace), head + below, Visited(rest.trace), later);
        }
      }
    }
  }

  /** Leaving visits out keeps parents before their children. */
  lemma {:induction false} SubseqParentsFirst(m: Links, x: seq<Visit>, y: seq<Visit>)
    requires Subseq(x, y) && ParentsFirst(m, y)
    ensures ParentsFirst(m, x)
    decreases |y|
  {
    if |x| > 0 {
      assert ParentsFirst(m, y[1..]) by {
        forall j, k | 0 <= j < |y[1..]| && 0 <= k < |y[1..]| && ChildOf(m, y[1..][j].link, y[1..][k].link)
          ensures j < k
        {
          assert y[1..][j] == y[j + 1] && y[1..][k] == y[k + 1];
        }
      }
      if x[0] == y[0] && Subseq(x[1..], y[1..]) {
        SubseqParentsFirst(m, x[1..], y[1..]);
        SubseqMembers(x[1..], y[1..]);
        var t := x[1..];
        assert forall j :: 0 < j < |x| ==> x[j] == t[j - 1] && t[j - 1] in t;
        forall v | v in t ensures !ChildOf(m, v.link, x[0].link) {
          var n :| 0 <= n < |y[1..]| && y[1..][n] == v;
          assert y[n + 1] == v;
        }
        forall j, k | 0 <= j < |x| && 0 <= k < |x| && ChildOf(m, x[j].link, x[k].link) ensures j < k {
          if j > 0 && k > 0 {
            assert ChildOf(m, t[j - 1].link, t[k - 1].link);
          }
        }
      } else {
        SubseqParentsFirst(m, x, y[1..]);
      }
    }
  }

  /** In a tree, visits taken from the pre-order of `a` in order name no link twice, name
      parents before children, and each link at `d` plus its distance from `a`. */
  lemma PreOrderPartFacts(m: Links, rank: map<string, nat>, a: string, d: nat, v: seq<Visit>)
    requires Tree(m) && Ranked(m, rank) && a in m && Subseq(v, PreOrder(m, rank, a, d))
    ensures LinksDistinct(v)
    ensures ParentsFirst(m, v)
    ensures forall j :: 0 <= j < |v| ==> v[j].level >= d && Below(m, a, v[j].link, v[j].level - d)
  {
    var order := PreOrder(m, rank, a, d);
    PreOrderDistinct(m, rank, a, d);
    PreOrderParentsFirst(m, rank, a, d);
    PreOrderMembers(m, rank, a, d);
    SubseqDistinct(v, order);
    SubseqParentsFirst(m, v, order);
    SubseqMembers(v, order);
    forall j | 0 <= j < |v| ensures v[j].level >= d && Below(m, a, v[j].link, v[j].level - d) {
      assert v[j] in v;
    }
  }

  /** Visits taken from the pre-order of the children of `a` never name `a`. */
  lemma PreOrderFromSkipsTop(m: Links, rank: map<string, nat>, a: string, d: nat, v: seq<Visit>)
    requires Closed(m) && Ranked(m, rank) && a in m && Subseq(v, PreOrderFrom(m, rank, a, 0, d + 1))
    ensures forall j :: 0 <= j < |v| ==> v[j].link != a
  {
    SubseqMembers(v, PreOrderFrom(m, rank, a, 0, d + 1));
    forall j | 0 <= j < |v| ensures v[j].link != a {
      assert v[j] in v;
      PreOrderFromBelow(m, rank, a, 0, d + 1, v[j]);
      BelowRank(m, rank, a, v[j].link, v[j].level - d);
    }
  }

  /** With any callback, in a tree: the top-down walk hands no link over twice, hands over
      only links of the subtree, each at the start level plus its distance from the start
      link, the start link only when `includeLink`, and every link before its children. */
  lemma TopDownVisitsOnce<S>(m: Links, rank: map<string, nat>, visit: Visitor<S>,
                             s: S, a: string, includeLink: bool, level: nat)
    requires Tree(m) && Ranked(m, rank) && a in m
    ensures var v := Visited(TopDown(m, rank, visit, s, a, includeLink, level).trace);
      && LinksDistinct(v)
      && ParentsFirst(m, v)
      && (forall j :: 0 <= j < |v| ==> v[j].level >= level && Below(m, a, v[j].link, v[j].level - level))
      && (!includeLink ==> forall j :: 0 <= j < |v| ==> v[j].link != a)
  {
    var v := Visited(TopDown(m, rank, visit, s, a, includeLink, level).trace);
    TopDownWithinPreOrder(m, rank, visit, s, a, includeLink, level);
    if includeLink {
      PreOrderPartFacts(m, rank, a, level, v);
    } else {
      var rest := PreOrderFrom(m, rank, a, 0, level + 1);
      assert Subseq(v, rest);
      PreOrderFromSkipsTop(m, rank, a, level, v);
      SubseqPrepend(v, [Visit(a, level)], rest);
      assert PreOrder(m, rank, a, level) == [Visit(a, level)] + rest;
      PreOrderPartFacts(m, rank, a, level, v);
    }
  }

  // ---------------------------------------------------------------------------
  // Bottom-up

  /** With any callback, when every child pointer resolves: the bottom-up walk hands over a
      prefix of the post-order (it stops at the first callback call that does not return a
      positive code), and all of it when it returns a positive code. Without `includeLink`
      the order is the post-order without its last visit, the start link. */
  lemma {:induction false} BottomUpPrefix<S>(m: Links, rank: map<string, nat>, visit: Visitor<S>,
                                             s: S, a: string, includeLink: bool, level: nat)
    requires PostReady(m, rank) && a in m
    ensures var w := BottomUp(m, rank, visit, s, a, includeLink, level);
      var order := if includeLink then PostOrder(m, rank, a, level)
                   else PostOrderFrom(m, rank, a, 0, level + 1);
      && Visited(w.trace) <= order
      && (w.code > 0 ==> Visited(w.trace) == order)
    decreases rank[a], 1
  {
    SubtreesPrefix(m, rank, visit, s, a, 0, level + 1);
    var w := Subtrees(m, rank, visit, s, a, SortedChildNames(m[a]), 0, level + 1);
    if w.code > 0 && includeLink {
      var (r, s1) := visit(w.state, a, level);
      VisitedConcat(w.trace, [Call(a, level, r)]);
      assert Visited([Call(a, level, r)]) == [Visit(a, level)];
    }
  }

  /** One round of the bottom-up loop and the matching piece of the post-order. */
  lemma SubtreesStep<S>(m: Links, rank: map<string, nat>, visit: Visitor<S>, s: S, p: string,
                        i: nat, level: nat)
    requires PostReady(m, rank) && p in m && i < |SortedChildNames(m[p])|
    ensures var names := SortedChildNames(m[p]);
      var c := names[i];
      && c in m && c in rank && p in rank && rank[c] < rank[p]
      && PostOrderFrom(m, rank, p, i, level) ==
           PostOrder(m, rank, c, level) + PostOrderFrom(m, rank, p, i + 1, level)
      && var sub := BottomUp(m, rank, visit, s, c, true, level);
         var rest := Subtrees(m, rank, visit, sub.state, p, names, i + 1, level);
         Subtrees(m, rank, visit, s, p, names, i, level) ==
           (if sub.code > 0 then Walk(rest.code, rest.state, sub.trace + rest.trace)
            else Walk(if sub.code == 0 then 0 else -1, sub.state, sub.trace))
  {
    var names := SortedChildNames(m[p]);
    NameIsChild(m, rank, p, i);
    ChildRank(m, rank, p, names[i]);
  }

  /** How the prefix facts of one subtree and of the later ones combine. */
  lemma PrefixGlue(here: seq<Visit>, later: seq<Visit>, x: seq<Visit>, y: seq<Visit>,
                   xAll: bool, yAll: bool)
    requires x <= here && (xAll ==> x == here)
    requires xAll ==> y <= later && (yAll ==> y == later)
    ensures xAll ==> x + y <= here + later && (yAll ==> x + y == here + later)
    ensures !xAll ==> x <= here + later
  {
    if xAll {
      PrefixAppend(here, y, later);
    } else {
      PrefixExtend(x, here, later);
    }
  }

  lemma {:induction false} SubtreesPrefix<S>(m: Links, rank: map<string, nat>, visit: Visitor<S>,
                                             s: S, p: string, i: nat, level: nat)
    requires PostReady(m, rank) && p in m && i <= |SortedChildNames(m[p])|
    ensures var w := Subtrees(m, rank, visit, s, p, SortedChildNames(m[p]), i, level);
      && Visited(w.trace) <= PostOrderFrom(m, rank, p, i, level)
      && (w.code > 0 ==> Visited(w.trace) == PostOrderFrom(m, rank, p, i, level))
    decreases rank[p], 0, |SortedChildNames(m[p])| - i
  {
    var names := SortedChildNames(m[p]);
    if i < |names| {
      var c := names[i];
      SubtreesStep(m, rank, visit, s, p, i, level);
      var sub := BottomUp(m, rank, visit, s, c, true, level);
      BottomUpPrefix(m, rank, visit, s, c, true, level);
      var rest := Subtrees(m, rank, visit, sub.state, p, names, i + 1, level);
      if sub.code > 0 {
        SubtreesPrefix(m, rank, visit, sub.state, p, i + 1, level);
        VisitedConcat(sub.trace, rest.trace);
      }
      PrefixGlue(PostOrder(m, rank, c, level), PostOrderFrom(m, rank, p, i + 1, level),
                 Visited(sub.trace), Visited(rest.trace), sub.code > 0, rest.code > 0);
    }
  }

  /** With a callback that always continues and child pointers that resolve, the bottom-up
      walk succeeds: 1 without `includeLink`, the start link's callback code with it. */
  lemma {:induction false} BottomUpGoesOn<S(!new)>(m: Links, rank: map<string, nat>,
                                                   visit: Visitor<S>, inv: S -> bool, s: S,
                                                   a: string, includeLink: bool, level: nat)
    requires PostReady(m, rank) && a in m && inv(s) && ContinuesWhile(m, visit, inv)
    ensures var w := BottomUp(m, rank, visit, s, a, includeLink, level);
      w.code > 0 && (!includeLink ==> w.code == 1) && inv(w.state)
    decreases rank[a], 1
  {
    SubtreesGoOn(m, rank, visit, inv, s, a, 0, level + 1);
  }

  lemma {:induction false} SubtreesGoOn<S(!new)>(m: Links, rank: map<string, nat>,
                                                 visit: Visitor<S>, inv: S -> bool, s: S,
                                                 p: string, i: nat, level: nat)
    requires PostReady(m, rank) && p in m && i <= |SortedChildNames(m[p])|
    requires inv(s) && ContinuesWhile(m, visit, inv)
    ensures var w := Subtrees(m, rank, visit, s, p, SortedChildNames(m[p]), i, level);
      w.code == 1 && inv(w.state)
    decreases rank[p], 0, |SortedChildNames(m[p])| - i
  {
    var names := SortedChildNames(m[p]);
    if i < |names| {
      NamesAreChildren(m, rank, p);
      ChildRank(m, rank, p, names[i]);
      BottomUpGoesOn(m, rank, visit, inv, s, names[i], true, level);
      var sub := BottomUp(m, rank, visit, s, names[i], true, level);
      SubtreesGoOn(m, rank, visit, inv, sub.state, p, i + 1, level);
    }
  }

  /** With a callback that always continues and child pointers that resolve, the bottom-up
      walk hands over the whole subtree in post-order, the start link last and only when
      `includeLink`, and returns 1 without `includeLink`. */
  lemma BottomUpPostOrder<S(!new)>(m: Links, rank: map<string, nat>, visit: Visitor<S>,
                                   inv: S -> bool, s: S, a: string, includeLink: bool, level: nat)
    requires PostReady(m, rank) && a in m && inv(s) && ContinuesWhile(m, visit, inv)
    ensures var w := BottomUp(m, rank, visit, s, a, includeLink, level);
      && w.code > 0
      && (!includeLink ==> w.code == 1)
      && Visited(w.trace) == (if includeLink then PostOrder(m, rank, a, level)
                              else PostOrderFrom(m, rank, a, 0, level + 1))
  {
    BottomUpGoesOn(m, rank, visit, inv, s, a, includeLink, level);
    BottomUpPrefix(m, rank, visit, s, a, includeLink, level);
  }

  /** The visits at level `d` come in strictly ascending name order. */
  ghost predicate AscendingAt(v: seq<Visit>, d: nat)
  {
    forall j, k :: 0 <= j < k < |v| && v[j].level == d && v[k].level == d ==>
      Less(v[j].link, v[k].link)
  }

  /** A sequence whose only visit at level `d` is its last one, `c`, followed by one ascending
      at `d` whose visits at `d` all come after `c`, is ascending at `d`. */
  lemma AscendingConcat(x: seq<Visit>, y: seq<Visit>, c: string, d: nat)
    requires forall j :: 0 <= j < |x| && x[j].level == d ==> j == |x| - 1 && x[j].link == c
    requires forall u :: u in y && u.level == d ==> Less(c, u.link)
    requires AscendingAt(y, d)
    ensures AscendingAt(x + y, d)
  {
    var v := x + y;
    forall j, k | 0 <= j < k < |v| && v[j].level == d && v[k].level == d
      ensures Less(v[j].link, v[k].link)
    {
      if |x| <= j {
        assert v[j] == y[j - |x|] && v[k] == y[k - |x|];
      } else if k < |x| {
        assert false;
      } else {
        assert v[j] == x[j] && v[k] == y[k - |x|] && y[k - |x|] in y;
      }
    }
  }

  /** In the post-order of `c` from level `d`, only its last visit, `c` itself, is at `d`. */
  lemma PostOrderTopLast(m: Links, rank: map<string, nat>, c: string, d: nat)
    requires PostReady(m, rank) && c in m
    ensures forall j :: 0 <= j < |PostOrder(m, rank, c, d)| && PostOrder(m, rank, c, d)[j].level == d ==>
              j == |PostOrder(m, rank, c, d)| - 1 && PostOrder(m, rank, c, d)[j].link == c
  {
    var below := PostOrderFrom(m, rank, c, 0, d + 1);
    var x := PostOrder(m, rank, c, d);
    assert x == below + [Visit(c, d)];
    forall j | 0 <= j < |x| - 1 ensures x[j].level > d {
      assert x[j] == below[j] && below[j] in below;
      PostOrderFromSound(m, rank, c, 0, d + 1, below[j]);
    }
  }

  /** The children named after `names[i]` sort after it. */
  lemma LaterNamesAfter(m: Links, rank: map<string, nat>, p: string, i: nat, d: nat)
    requires PostReady(m, rank) && p in m && i < |SortedChildNames(m[p])|
    ensures forall u :: u in PostOrderFrom(m, rank, p, i + 1, d) && u.level == d ==>
              Less(SortedChildNames(m[p])[i], u.link)
  {
    var names := SortedChildNames(m[p]);
    SortedChildNamesSpec(m[p]);
    forall u | u in PostOrderFrom(m, rank, p, i + 1, d) && u.level == d
      ensures Less(names[i], u.link)
    {
      PostOrderFromSound(m, rank, p, i + 1, d, u);
      var k :| i + 1 <= k < |names| && names[k] in m && Below(m, names[k], u.link, 0);
    }
  }

  /** In the post-order from the sorted child names `i..` of `p`, the visits at the level of
      those children are in strictly ascending name order. */
  lemma {:induction false} PostOrderFromAscending(m: Links, rank: map<string, nat>, p: string,
                                                  i: nat, d: nat)
    requires PostReady(m, rank) && p in m && i <= |SortedChildNames(m[p])|
    ensures AscendingAt(PostOrderFrom(m, rank, p, i, d), d)
    decreases |SortedChildNames(m[p])| - i
  {
    var names := SortedChildNames(m[p]);
    if i < |names| {
      NameIsChild(m, rank, p, i);
      var c := names[i];
      PostOrderFromAscending(m, rank, p, i + 1, d);
      PostOrderTopLast(m, rank, c, d);
      LaterNamesAfter(m, rank, p, i, d);
      AscendingConcat(PostOrder(m, rank, c, d), PostOrderFrom(m, rank, p, i + 1, d), c, d);
    }
  }

  /** The post-order of `a` hands over the children of `a` in strictly ascending name order. */
  lemma PostOrderChildrenAscending(m: Links, rank: map<string, nat>, a: string, d: nat)
    requires PostReady(m, rank) && a in m
    ensures AscendingAt(PostOrder(m, rank, a, d), d + 1)
  {
    var f := PostOrderFrom(m, rank, a, 0, d + 1);
    PostOrderFromAscending(m, rank, a, 0, d + 1);
    assert PostOrder(m, rank, a, d) == f + [Visit(a, d)];
    assert forall j :: 0 <= j < |f| ==> PostOrder(m, rank, a, d)[j] == f[j];
  }

  /** With any callback, when every child pointer resolves, the bottom-up walk hands over a
      prefix of the post-order of the start link, with or without `includeLink`. */
  lemma BottomUpWithinPostOrder<S>(m: Links, rank: map<string, nat>, visit: Visitor<S>,
                                   s: S, a: string, includeLink: bool, level: nat)
    requires PostReady(m, rank) && a in m
    ensures Visited(BottomUp(m, rank, visit, s, a, includeLink, level).trace) <= PostOrder(m, rank, a, level)
    ensures !includeLink ==>
      Visited(BottomUp(m, rank, visit, s, a, includeLink, level).trace) <= PostOrderFrom(m, rank, a, 0, level + 1)
  {
    var v := Visited(BottomUp(m, rank, visit, s, a, includeLink, level).trace);
    BottomUpPrefix(m, rank, visit, s, a, includeLink, level);
    if !includeLink {
      PrefixExtend(v, PostOrderFrom(m, rank, a, 0, level + 1), [Visit(a, level)]);
    }
  }

  /** With any callback, when each link is the child of at most one link and every child
      pointer resolves: the bottom-up walk hands no link over twice, hands over only links of
      the subtree, each at the start level plus its distance from the start link, and every
      link after its children. */
  lemma BottomUpVisitsOnce<S>(m: Links, rank: map<string, nat>, visit: Visitor<S>,
                              s: S, a: string, includeLink: bool, level: nat)
    requires PostReady(m, rank) && UniqueParents(m) && a in m
    ensures var v := Visited(BottomUp(m, rank, visit, s, a, includeLink, level).trace);
      && LinksDistinct(v)
      && ChildrenFirst(m, v)
      && (forall j :: 0 <= j < |v| ==> v[j].level >= level && Below(m, a, v[j].link, v[j].level - level))
  {
    var v := Visited(BottomUp(m, rank, visit, s, a, includeLink, level).trace);
    var order := PostOrder(m, rank, a, level);
    BottomUpWithinPostOrder(m, rank, visit, s, a, includeLink, level);
    PrefixKeeps(m, v, order);
    PostOrderDistinct(m, rank, a, level);
    PostOrderChildrenFirst(m, rank, a, level);
    PostOrderMembers(m, rank, a, level);
    forall j | 0 <= j < |v| ensures v[j].level >= level && Below(m, a, v[j].link, v[j].level - level) {
      assert v[j] in v;
    }
  }

  /** With any callback, when every child pointer resolves, the bottom-up walk without
      `includeLink` never hands over the start link. */
  lemma BottomUpSkipsStart<S>(m: Links, rank: map<string, nat>, visit: Visitor<S>,
                              s: S, a: string, level: nat)
    requires PostReady(m, rank) && a in m
    ensures var v := Visited(BottomUp(m, rank, visit, s, a, false, level).trace);
      forall j :: 0 <= j < |v| ==> v[j].link != a
  {
    var v := Visited(BottomUp(m, rank, visit, s, a, false, level).trace);
    var rest := PostOrderFrom(m, rank, a, 0, level + 1);
    BottomUpWithinPostOrder(m, rank, visit, s, a, false, level);
    forall j | 0 <= j < |v| ensures v[j].link != a {
      assert v[j] == rest[j] && rest[j] in rest;
      PostOrderFromBelow(m, rank, a, 0, level + 1, v[j]);
      BelowRank(m, rank, a, v[j].link, v[j].level - level);
    }
  }

  /** With any callback, when every child pointer resolves, the bottom-up walk hands over the
      children of the start link in strictly ascending name order. */
  lemma BottomUpChildrenAscending<S>(m: Links, rank: map<string, nat>, visit: Visitor<S>,
                                     s: S, a: string, includeLink: bool, level: nat)
    requires PostReady(m, rank) && a in m
    ensures AscendingAt(Visited(BottomUp(m, rank, visit, s, a, includeLink, level).trace), level + 1)
  {
    var v := Visited(BottomUp(m, rank, visit, s, a, includeLink, level).trace);
    var order := PostOrder(m, rank, a, level);
    BottomUpWithinPostOrder(m, rank, visit, s, a, includeLink, level);
    PostOrderChildrenAscending(m, rank, a, level);
    assert forall j :: 0 <= j < |v| ==> v[j] == order[j];
  }
}
