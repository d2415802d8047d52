/** What the top-down walk does to the recursion-parameters object, for a callback described
    by facts about links: facts that every callback call keeps still hold when the walk ends,
    and a fact that a call on a link establishes holds, at the end, for every link handed
    over. */
module WalkEffects {
  import opened UrdfModel
  import opened Traversal
  import opened TreeShape

  /** Every fact `q(x, ·)` that holds of the parameters still holds after a callback call on a
      link of `m`. */
  ghost predicate KeepsFacts<S(!new)>(m: Links, visit: Visitor<S>, q: (string, S) -> bool)
  {
    forall s, n, x, l :: n in m && q(x, s) ==> q(x, visit(s, n, l).1)
  }

  /** A callback call on a link `n` of `m` makes `q(n, ·)` hold. */
  ghost predicate EstablishesFact<S(!new)>(m: Links, visit: Visitor<S>, q: (string, S) -> bool)
  {
    forall s, n, l :: n in m ==> q(n, visit(s, n, l).1)
  }

  /** `q(x, ·)` holds, in the final parameters, for every link `x` the walk handed over. */
  ghost predicate HoldsForVisited<S>(q: (string, S) -> bool, w: Walk<S>)
  {
    forall j :: 0 <= j < |w.trace| ==> q(w.trace[j].link, w.state)
  }

  /** A walk keeps what each callback call keeps. */
  lemma {:induction false} TopDownKeeps<S(!new)>(m: Links, rank: map<string, nat>, visit: Visitor<S>,
                                                 q: (string, S) -> bool, s: S, a: string,
                                                 includeLink: bool, level: nat)
    requires Closed(m) && Ranked(m, rank) && a in m && KeepsFacts(m, visit, q)
    ensures forall x :: q(x, s) ==> q(x, TopDown(m, rank, visit, s, a, includeLink, level).state)
    decreases rank[a], 1
  {
    if includeLink {
      var (r, s1) := visit(s, a, level);
      ChildrenKeep(m, rank, visit, q, s1, a, 0, level + 1);
    } else {
      ChildrenKeep(m, rank, visit, q, s, a, 0, level + 1);
    }
  }

  lemma {:induction false} ChildrenKeep<S(!new)>(m: Links, rank: map<string, nat>, visit: Visitor<S>,
                                                 q: (string, S) -> bool, s: S, p: string, i: nat,
                                                 level: nat)
    requires Closed(m) && Ranked(m, rank) && p in m && i <= |m[p].childLinks|
    requires KeepsFacts(m, visit, q)
    ensures forall x :: q(x, s) ==> q(x, Children(m, rank, visit, s, p, i, level).state)
    decreases rank[p], 0, |m[p].childLinks| - i
  {
    var kids := m[p].childLinks;
    if i < |kids| && kids[i].Some? {
      var c := kids[i].value;
      var (r, s1) := visit(s, c, level);
      if r > 0 {
        assert rank[c] < rank[p];
        TopDownKeeps(m, rank, visit, q, s1, c, false, level);
        var sub := TopDown(m, rank, visit, s1, c, false, level);
        if sub.code >= 0 {
          ChildrenKeep(m, rank, visit, q, sub.state, p, i + 1, level);
        }
      }
    }
  }

  /** Every fact `q(x, ·)` that holds of the parameters still holds after a callback call on a
      link strictly below `a`, or on `a` itself when `withTop`. */
  ghost predicate KeepsFactsBelow<S(!new)>(m: Links, a: string, withTop: bool, visit: Visitor<S>,
                                           q: (string, S) -> bool)
    requires Closed(m) && a in m
  {
    forall s, n, l, k: nat :: (k > 0 || withTop) && Below(m, a, n, k) ==>
      forall x :: q(x, s) ==> q(x, visit(s, n, l).1)
  }

  /** A walk keeps what every callback call on a link it can reach keeps. */
  lemma {:induction false} TopDownKeepsBelow<S(!new)>(m: Links, rank: map<string, nat>,
                                                      visit: Visitor<S>, q: (string, S) -> bool,
                                                      s: S, a: string, includeLink: bool,
                                                      level: nat)
    requires Closed(m) && Ranked(m, rank) && a in m
    requires KeepsFactsBelow(m, a, includeLink, visit, q)
    ensures forall x :: q(x, s) ==> q(x, TopDown(m, rank, visit, s, a, includeLink, level).state)
    decreases rank[a], 1
  {
    if includeLink {
      assert Below(m, a, a, 0);
      var (r, s1) := visit(s, a, level);
      ChildrenKeepBelow(m, rank, visit, q, s1, a, 0, level + 1);
    } else {
      ChildrenKeepBelow(m, rank, visit, q, s, a, 0, level + 1);
    }
  }

  lemma {:induction false} ChildrenKeepBelow<S(!new)>(m: Links, rank: map<string, nat>,
                                                       visit: Visitor<S>, q: (string, S) -> bool,
                                                       s: S, p: string, i: nat, level: nat)
    requires Closed(m) && Ranked(m, rank) && p in m && i <= |m[p].childLinks|
    requires KeepsFactsBelow(m, p, false, visit, q)
    ensures forall x :: q(x, s) ==> q(x, Children(m, rank, visit, s, p, i, level).state)
    decreases rank[p], 0, |m[p].childLinks| - i
  {
    var kids := m[p].childLinks;
    if i < |kids| && kids[i].Some? {
      var c := kids[i].value;
      assert Below(m, c, c, 0);
      assert Below(m, p, c, 1);
      forall n, k: nat | Below(m, c, n, k) ensures Below(m, p, n, k + 1) {
        assert kids[i].Some? && Below(m, kids[i].value, n, k);
      }
      var (r, s1) := visit(s, c, level);
      if r > 0 {
        assert rank[c] < rank[p];
        TopDownKeepsBelow(m, rank, visit, q, s1, c, false, level);
        var sub := TopDown(m, rank, visit, s1, c, false, level);
        if sub.code >= 0 {
          ChildrenKeepBelow(m, rank, visit, q, sub.state, p, i + 1, level);
        }
      }
    }
  }

  /** At the end of a walk, the fact each callback call establishes holds for every link the
      walk handed over. */
  lemma {:induction false} TopDownEstablishes<S(!new)>(m: Links, rank: map<string, nat>,
                                                       visit: Visitor<S>, q: (string, S) -> bool,
                                                       s: S, a: string, includeLink: bool, level: nat)
    requires Closed(m) && Ranked(m, rank) && a in m
    requires KeepsFacts(m, visit, q) && EstablishesFact(m, visit, q)
    ensures HoldsForVisited(q, TopDown(m, rank, visit, s, a, includeLink, level))
    decreases rank[a], 1
  {
    if includeLink {
      var (r, s1) := visit(s, a, level);
      assert q(a, s1);
      if r > 0 {
        ChildrenEstablish(m, rank, visit, q, s1, a, 0, level + 1);
        ChildrenKeep(m, rank, visit, q, s1, a, 0, level + 1);
        var w := Children(m, rank, visit, s1, a, 0, level + 1);
        assert q(a, w.state);
        var t := [Call(a, level, r)] + w.trace;
        assert forall j :: 0 < j < |t| ==> t[j] == w.trace[j - 1];
        assert HoldsForVisited(q, Walk(w.code, w.state, t));
      } else {
        assert HoldsForVisited(q, Walk(r, s1, [Call(a, level, r)]));
      }
    } else {
      ChildrenEstablish(m, rank, visit, q, s, a, 0, level + 1);
    }
  }

  lemma {:induction false} ChildrenEstablish<S(!new)>(m: Links, rank: map<string, nat>,
                                                      visit: Visitor<S>, q: (string, S) -> bool,
                                                      s: S, p: string, i: nat, level: nat)
    requires Closed(m) && Ranked(m, rank) && p in m && i <= |m[p].childLinks|
    requires KeepsFacts(m, visit, q) && EstablishesFact(m, visit, q)
    ensures HoldsForVisited(q, Children(m, rank, visit, s, p, i, level))
    decreases rank[p], 0, |m[p].childLinks| - i
  {
    var kids := m[p].childLinks;
    if i < |kids| && kids[i].Some? {
      var c := kids[i].value;
      var (r, s1) := visit(s, c, level);
      if r > 0 {
        assert rank[c] < rank[p];
        TopDownEstablishes(m, rank, visit, q, s1, c, false, level);
        TopDownKeeps(m, rank, visit, q, s1, c, false, level);
        var sub := TopDown(m, rank, visit, s1, c, false, level);
        assert q(c, sub.state);
        var head := [Call(c, level, r)] + sub.trace;
        assert forall j :: 0 < j < |head| ==> head[j] == sub.trace[j - 1];
        assert HoldsForVisited(q, Walk(-1, sub.state, head));
        if sub.code >= 0 {
          ChildrenEstablish(m, rank, visit, q, sub.state, p, i + 1, level);
          ChildrenKeep(m, rank, visit, q, sub.state, p, i + 1, level);
          var rest := Children(m, rank, visit, sub.state, p, i + 1, level);
          var t := head + rest.trace;
          assert forall j :: 0 <= j < |head| ==> t[j] == head[j];
          assert forall j :: |head| <= j < |t| ==> t[j] == rest.trace[j - |head|];
          assert HoldsForVisited(q, Walk(rest.code, rest.state, t));
        }
      }
    }
  }

  /** A walk whose callback leaves the parameters `s` as they are, on every link it can be
      handed, ends with the parameters `s`. */
  lemma {:induction false} TopDownStill<S>(m: Links, rank: map<string, nat>, visit: Visitor<S>,
                                           s: S, a: string, includeLink: bool, level: nat)
    requires Closed(m) && Ranked(m, rank) && a in m
    requires forall n, k, l :: (k > 0 || includeLink) && Below(m, a, n, k) ==> visit(s, n, l).1 == s
    ensures TopDown(m, rank, visit, s, a, includeLink, level).state == s
    decreases rank[a], 1
  {
    if includeLink {
      assert Below(m, a, a, 0);
    }
    ChildrenStill(m, rank, visit, s, a, 0, level + 1);
  }

  lemma {:induction false} ChildrenStill<S>(m: Links, rank: map<string, nat>, visit: Visitor<S>,
                                            s: S, p: string, i: nat, level: nat)
    requires Closed(m) && Ranked(m, rank) && p in m && i <= |m[p].childLinks|
    requires forall n, k, l :: k > 0 && Below(m, p, n, k) ==> visit(s, n, l).1 == s
    ensures Children(m, rank, visit, s, p, i, level).state == s
    decreases rank[p], 0, |m[p].childLinks| - i
  {
    var kids := m[p].childLinks;
    if i < |kids| && kids[i].Some? {
      var c := kids[i].value;
      assert Below(m, c, c, 0);
      assert Below(m, p, c, 1);
      assert rank[c] < rank[p];
      forall n, k: nat | Below(m, c, n, k) ensures Below(m, p, n, k + 1) {
        assert kids[i].Some? && Below(m, kids[i].value, n, k);
      }
      TopDownStill(m, rank, visit, s, c, false, level);
      ChildrenStill(m, rank, visit, s, p, i + 1, level);
    }
  }
}
