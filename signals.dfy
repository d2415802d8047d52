/** How the two walks pass the callback's three-valued return code up: what any walk, with
    any callback, can return, and which callback calls it can have made before. */
module Signals {
  import opened UrdfModel
  import opened SortedNames
  import opened Traversal

  /** Top-down: a positive result is always 1; the walk fails exactly when its last callback
      call failed, with that code or -1; every earlier call returned a non-negative code (a 0
      handed up by a recursive call does not stop the walk); a 0 only comes from the start
      link, a direct child or a null child pointer of the start link; the start link is
      handed over first and only when `includeLink`, every other link at a deeper level. */
  lemma {:induction false} TopDownCodes<S>(m: Links, rank: map<string, nat>, visit: Visitor<S>,
                                             s: S, name: string, includeLink: bool, level: nat)
    requires Closed(m) && Ranked(m, rank) && name in m
    ensures var w := TopDown(m, rank, visit, s, name, includeLink, level);
      && w.code <= 1
      && (w.code < 0 <==> |w.trace| > 0 && LastCall(w.trace).ret < 0)
      && (w.code < 0 ==> w.code == -1 || w.code == LastCall(w.trace).ret)
      && (forall j :: 0 <= j < |w.trace| - 1 ==> w.trace[j].ret >= 0)
      && (w.code == 0 ==>
            (|w.trace| > 0 && LastCall(w.trace).ret == 0 && LastCall(w.trace).level <= level + 1) ||
            (exists k :: 0 <= k < |m[name].childLinks| && m[name].childLinks[k].None?))
      && (includeLink ==> |w.trace| > 0 && w.trace[0].link == name && w.trace[0].level == level)
      && (forall j :: 0 <= j < |w.trace| ==> w.trace[j].level > level || (j == 0 && includeLink))
    decreases rank[name], 1
  {
    ChildrenCodes(m, rank, visit, s, name, 0, level + 1);
    if includeLink {
      var (r, s1) := visit(s, name, level);
      if r > 0 {
        ChildrenCodes(m, rank, visit, s1, name, 0, level + 1);
        var w := Children(m, rank, visit, s1, name, 0, level + 1);
        var t := [Call(name, level, r)] + w.trace;
        assert forall j :: 0 < j < |t| ==> t[j] == w.trace[j - 1];
      }
    }
  }

  lemma {:induction false} ChildrenCodes<S>(m: Links, rank: map<string, nat>, visit: Visitor<S>,
                                              s: S, parent: string, i: nat, level: nat)
    requires Closed(m) && Ranked(m, rank) && parent in m && i <= |m[parent].childLinks|
    ensures var w := Children(m, rank, visit, s, parent, i, level);
      && w.code <= 1
      && (w.code < 0 <==> |w.trace| > 0 && LastCall(w.trace).ret < 0)
      && (w.code < 0 ==> w.code == -1 || w.code == LastCall(w.trace).ret)
      && (forall j :: 0 <= j < |w.trace| - 1 ==> w.trace[j].ret >= 0)
      && (w.code == 0 ==>
            (|w.trace| > 0 && LastCall(w.trace).ret == 0 && LastCall(w.trace).level == level) ||
            (exists k :: i <= k < |m[parent].childLinks| && m[parent].childLinks[k].None?))
      && (forall j :: 0 <= j < |w.trace| ==> w.trace[j].level >= level)
    decreases rank[parent], 0, |m[parent].childLinks| - i, 1
  {
    var kids := m[parent].childLinks;
    if i < |kids| && kids[i].Some? {
      var c := kids[i].value;
      var (r, s1) := visit(s, c, level);
      if r > 0 {
        assert rank[c] < rank[parent];
        TopDownCodes(m, rank, visit, s1, c, false, level);
        var sub := TopDown(m, rank, visit, s1, c, false, level);
        var head := [Call(c, level, r)] + sub.trace;
        assert forall j :: 0 < j < |head| ==> head[j] == sub.trace[j - 1];
        if sub.code >= 0 {
          ContinuedCodes(m, rank, visit, parent, i, level, head, sub.state);
        }
      }
    }
  }

  /** The step of ChildrenCodes after a child subtree that did not fail. */
  lemma {:induction false} ContinuedCodes<S>(m: Links, rank: map<string, nat>, visit: Visitor<S>,
                                               parent: string, i: nat, level: nat,
                                               head: seq<Call>, s: S)
    requires Closed(m) && Ranked(m, rank) && parent in m && i < |m[parent].childLinks|
    requires forall j :: 0 <= j < |head| ==> head[j].ret >= 0 && head[j].level >= level
    ensures var rest := Children(m, rank, visit, s, parent, i + 1, level);
      var t := head + rest.trace;
      && rest.code <= 1
      && (rest.code < 0 <==> |t| > 0 && LastCall(t).ret < 0)
      && (rest.code < 0 ==> rest.code == -1 || rest.code == LastCall(t).ret)
      && (forall j :: 0 <= j < |t| - 1 ==> t[j].ret >= 0)
      && (rest.code == 0 ==>
            (|t| > 0 && LastCall(t).ret == 0 && LastCall(t).level == level) ||
            (exists k :: i <= k < |m[parent].childLinks| && m[parent].childLinks[k].None?))
      && (forall j :: 0 <= j < |t| ==> t[j].level >= level)
    decreases rank[parent], 0, |m[parent].childLinks| - i, 0
  {
    ChildrenCodes(m, rank, visit, s, parent, i + 1, level);
    var rest := Children(m, rank, visit, s, parent, i + 1, level);
    var t := head + rest.trace;
    assert forall j :: 0 <= j < |head| ==> t[j] == head[j];
    assert forall j :: |head| <= j < |t| ==> t[j] == rest.trace[j - |head|];
    if |rest.trace| > 0 {
      assert LastCall(t) == LastCall(rest.trace);
    }
  }

  /** Bottom-up: every failure is reported as -1; the walk stops at the first callback call
      that does not return a positive code (so a 0 from a child subtree stops the siblings and
      the current link too); on success the start link, if included, is handed over last and
      its code is returned, and 1 is returned otherwise; only the start link is handed over
      at the start level; and when every child pointer resolves, a failure always comes from
      the callback. */
  lemma {:induction false} BottomUpCodes<S>(m: Links, rank: map<string, nat>, visit: Visitor<S>,
                                              s: S, name: string, includeLink: bool, level: nat)
    requires BottomUpReady(m, rank) && name in m
    ensures var w := BottomUp(m, rank, visit, s, name, includeLink, level);
      && (w.code < 0 ==> w.code == -1)
      && (forall j :: 0 <= j < |w.trace| - 1 ==> w.trace[j].ret > 0)
      && (|w.trace| > 0 && LastCall(w.trace).ret <= 0 ==>
            w.code == (if LastCall(w.trace).ret < 0 then -1 else 0))
      && (w.code == 0 ==> |w.trace| > 0 && LastCall(w.trace).ret == 0)
      && (w.code > 0 && !includeLink ==> w.code == 1)
      && (w.code > 0 && includeLink ==>
            |w.trace| > 0 && LastCall(w.trace) == Call(name, level, w.code))
      && (forall j :: 0 <= j < |w.trace| ==>
            w.trace[j].level > level ||
            (j == |w.trace| - 1 && includeLink && w.trace[j] == Call(name, level, w.trace[j].ret)))
      && (Closed(m) && w.code < 0 ==> |w.trace| > 0 && LastCall(w.trace).ret < 0)
    decreases rank[name], 1
  {
    var names := SortedChildNames(m[name]);
    SortedChildNamesSpec(m[name]);
    SubtreesCodes(m, rank, visit, s, name, names, 0, level + 1);
    var w := Subtrees(m, rank, visit, s, name, names, 0, level + 1);
    if w.code > 0 && includeLink {
      var (r, s1) := visit(w.state, name, level);
      var t := w.trace + [Call(name, level, r)];
      assert forall j :: 0 <= j < |w.trace| ==> t[j] == w.trace[j];
    }
  }

  lemma {:induction false} SubtreesCodes<S>(m: Links, rank: map<string, nat>, visit: Visitor<S>,
                                              s: S, parent: string, names: seq<string>, i: nat,
                                              level: nat)
    requires BottomUpReady(m, rank) && parent in m && i <= |names|
    ensures var w := Subtrees(m, rank, visit, s, parent, names, i, level);
      && (w.code == 1 || w.code == 0 || w.code == -1)
      && (forall j :: 0 <= j < |w.trace| - 1 ==> w.trace[j].ret > 0)
      && (|w.trace| > 0 && LastCall(w.trace).ret <= 0 ==>
            w.code == (if LastCall(w.trace).ret < 0 then -1 else 0))
      && (w.code == 0 ==> |w.trace| > 0 && LastCall(w.trace).ret == 0)
      && (forall j :: 0 <= j < |w.trace| ==> w.trace[j].level >= level)
      && ((Closed(m) && (forall k :: i <= k < |names| ==> IsChild(m[parent], names[k])) &&
           w.code < 0) ==> |w.trace| > 0 && LastCall(w.trace).ret < 0)
    decreases rank[parent], 0, |names| - i
  {
    if i < |names| && IsChild(m[parent], names[i]) && names[i] in m {
      ChildRank(m, rank, parent, names[i]);
      BottomUpCodes(m, rank, visit, s, names[i], true, level);
      var sub := BottomUp(m, rank, visit, s, names[i], true, level);
      if sub.code > 0 {
        SubtreesCodes(m, rank, visit, sub.state, parent, names, i + 1, level);
        var rest := Subtrees(m, rank, visit, sub.state, parent, names, i + 1, level);
        assert Subtrees(m, rank, visit, s, parent, names, i, level) ==
               Walk(rest.code, rest.state, sub.trace + rest.trace);
        var strict := Closed(m) && (forall k :: i <= k < |names| ==> IsChild(m[parent], names[k]));
        assert strict ==> forall k :: i + 1 <= k < |names| ==> IsChild(m[parent], names[k]);
        JoinCodes(sub.trace, rest.trace, rest.code, level, strict);
      }
    }
  }

  /** The facts of SubtreesCodes survive putting a run of successful calls in
      front. */
  lemma JoinCodes(head: seq<Call>, rest: seq<Call>, code: int, level: nat, strict: bool)
    requires |head| > 0
    requires forall j :: 0 <= j < |head| ==> head[j].ret > 0 && head[j].level >= level
    requires forall j :: 0 <= j < |rest| - 1 ==> rest[j].ret > 0
    requires |rest| > 0 && LastCall(rest).ret <= 0 ==>
             code == (if LastCall(rest).ret < 0 then -1 else 0)
    requires code == 0 ==> |rest| > 0 && LastCall(rest).ret == 0
    requires forall j :: 0 <= j < |rest| ==> rest[j].level >= level
    requires strict && code < 0 ==> |rest| > 0 && LastCall(rest).ret < 0
    ensures var t := head + rest;
      && (forall j :: 0 <= j < |t| - 1 ==> t[j].ret > 0)
      && (|t| > 0 && LastCall(t).ret <= 0 ==> code == (if LastCall(t).ret < 0 then -1 else 0))
      && (code == 0 ==> |t| > 0 && LastCall(t).ret == 0)
      && (forall j :: 0 <= j < |t| ==> t[j].level >= level)
      && (strict && code < 0 ==> |t| > 0 && LastCall(t).ret < 0)
  {
    var t := head + rest;
    assert forall j :: 0 <= j < |head| ==> t[j] == head[j];
    assert forall j :: |head| <= j < |t| ==> t[j] == rest[j - |head|];
    if |rest| > 0 {
      assert LastCall(t) == LastCall(rest);
    } else {
      assert LastCall(t) == LastCall(head);
    }
  }

  /** When every call returned a positive code, the calls of the rest of a walk did too. */
  lemma PositiveSuffix(head: seq<Call>, rest: seq<Call>)
    ensures (forall j :: 0 <= j < |head + rest| ==> (head + rest)[j].ret > 0) ==>
            forall j :: 0 <= j < |rest| ==> rest[j].ret > 0
  {
    var t := head + rest;
    assert forall j :: 0 <= j < |rest| ==> t[j + |head|] == rest[j];
  }

  /** A sorted child name that the model does not hold ends the loop with -1 when it is
      reached, that is when no earlier subtree stopped or failed. */
  lemma {:induction false} SubtreesMissing<S>(m: Links, rank: map<string, nat>, visit: Visitor<S>,
                                              s: S, parent: string, names: seq<string>, i: nat,
                                              level: nat)
    requires BottomUpReady(m, rank) && parent in m && i <= |names|
    ensures var w := Subtrees(m, rank, visit, s, parent, names, i, level);
      ((exists k :: i <= k < |names| && names[k] !in m) &&
       (forall j :: 0 <= j < |w.trace| ==> w.trace[j].ret > 0)) ==> w.code == -1
    decreases |names| - i
  {
    if i < |names| && IsChild(m[parent], names[i]) && names[i] in m {
      ChildRank(m, rank, parent, names[i]);
      BottomUpCodes(m, rank, visit, s, names[i], true, level);
      var sub := BottomUp(m, rank, visit, s, names[i], true, level);
      if sub.code > 0 {
        SubtreesMissing(m, rank, visit, sub.state, parent, names, i + 1, level);
        var rest := Subtrees(m, rank, visit, sub.state, parent, names, i + 1, level);
        assert Subtrees(m, rank, visit, s, parent, names, i, level) ==
               Walk(rest.code, rest.state, sub.trace + rest.trace);
        PositiveSuffix(sub.trace, rest.trace);
        if exists k :: i <= k < |names| && names[k] !in m {
          var k :| i <= k < |names| && names[k] !in m;
          assert i + 1 <= k;
        }
      } else if sub.code == 0 {
        assert Subtrees(m, rank, visit, s, parent, names, i, level) == Walk(0, sub.state, sub.trace);
      }
    }
  }

  /** What the loop needs to know of a child's own bottom-up walk. */
  lemma ChildWalkFacts<S>(m: Links, rank: map<string, nat>, visit: Visitor<S>, s: S,
                          c: string, level: nat)
    requires BottomUpReady(m, rank) && c in m
    ensures var w := BottomUp(m, rank, visit, s, c, true, level);
      && (w.code == 0 ==> |w.trace| > 0 && LastCall(w.trace).ret == 0)
      && (forall j :: 0 <= j < |w.trace| && w.trace[j].level == level ==> w.trace[j].link == c)
  {
    BottomUpCodes(m, rank, visit, s, c, true, level);
  }

  /** The first sorted name the model does not hold ends the loop there: when no call
      stopped or failed, the code is -1 and the only links called at the loop's level are the
      names before it; the later names are never walked. */
  lemma {:induction false} SubtreesMissingStops<S>(m: Links, rank: map<string, nat>,
                                                   visit: Visitor<S>, s: S, parent: string,
                                                   names: seq<string>, i: nat, k: nat, level: nat)
    requires BottomUpReady(m, rank) && parent in m && i <= k < |names|
    requires names[k] !in m && forall q :: i <= q < k ==> names[q] in m
    ensures var w := Subtrees(m, rank, visit, s, parent, names, i, level);
      (forall j :: 0 <= j < |w.trace| ==> w.trace[j].ret > 0) ==>
        && w.code == -1
        && forall j :: 0 <= j < |w.trace| && w.trace[j].level == level ==>
             exists q :: i <= q < k && w.trace[j].link == names[q]
    decreases k - i
  {
    if i < k && IsChild(m[parent], names[i]) {
      ChildRank(m, rank, parent, names[i]);
      ChildWalkFacts(m, rank, visit, s, names[i], level);
      var sub := BottomUp(m, rank, visit, s, names[i], true, level);
      if sub.code > 0 {
        SubtreesMissingStops(m, rank, visit, sub.state, parent, names, i + 1, k, level);
        var rest := Subtrees(m, rank, visit, sub.state, parent, names, i + 1, level);
        var t := sub.trace + rest.trace;
        assert Subtrees(m, rank, visit, s, parent, names, i, level) == Walk(rest.code, rest.state, t);
        PositiveSuffix(sub.trace, rest.trace);
        if forall j :: 0 <= j < |t| ==> t[j].ret > 0 {
          forall j | 0 <= j < |t| && t[j].level == level
            ensures exists q :: i <= q < k && t[j].link == names[q]
          {
            if j < |sub.trace| {
              assert t[j] == sub.trace[j];
              assert t[j].link == names[i];
            } else {
              assert t[j] == rest.trace[j - |sub.trace|];
            }
          }
        }
      } else if sub.code == 0 {
        assert Subtrees(m, rank, visit, s, parent, names, i, level) == Walk(0, sub.state, sub.trace);
      } else {
        assert Subtrees(m, rank, visit, s, parent, names, i, level) == Walk(-1, sub.state, sub.trace);
        assert forall j :: 0 <= j < |sub.trace| && sub.trace[j].level == level ==>
                 i <= i < k && sub.trace[j].link == names[i];
      }
    }
  }

  /** A child pointer whose name the model does not hold makes the bottom-up walk fail with
      -1, unless a callback stopped or failed first; the walk then ends without calling
      anything at the start level, so the start link is never handed over. */
  lemma BottomUpMissingChild<S>(m: Links, rank: map<string, nat>, visit: Visitor<S>, s: S,
                                name: string, includeLink: bool, level: nat)
    requires BottomUpReady(m, rank) && name in m
    ensures var w := BottomUp(m, rank, visit, s, name, includeLink, level);
      ((exists c :: IsChild(m[name], c) && c !in m) &&
       (forall j :: 0 <= j < |w.trace| ==> w.trace[j].ret > 0)) ==>
        w.code == -1 && forall j :: 0 <= j < |w.trace| ==> w.trace[j].level > level
  {
    var names := SortedChildNames(m[name]);
    SortedChildNamesSpec(m[name]);
    SubtreesMissing(m, rank, visit, s, name, names, 0, level + 1);
    SubtreesCodes(m, rank, visit, s, name, names, 0, level + 1);
    var sub := Subtrees(m, rank, visit, s, name, names, 0, level + 1);
    var w := BottomUp(m, rank, visit, s, name, includeLink, level);
    assert forall j :: 0 <= j < |sub.trace| ==> w.trace[j] == sub.trace[j];
    if exists c :: IsChild(m[name], c) && c !in m {
      var c :| IsChild(m[name], c) && c !in m;
      assert c in names;
      var k :| 0 <= k < |names| && names[k] == c;
    }
  }

  /** Bottom-up signalling (traverseTreeBottomUp, any callback): the facts of BottomUpCodes,
      and a child pointer whose name the model does not hold gives -1 once it is reached. */
  lemma BottomUpSignals<S>(m: Links, rank: map<string, nat>, visit: Visitor<S>, s: S,
                           name: string, includeLink: bool, level: nat)
    requires BottomUpReady(m, rank) && name in m
    ensures var w := BottomUp(m, rank, visit, s, name, includeLink, level);
      && (w.code < 0 ==> w.code == -1)
      && (forall j :: 0 <= j < |w.trace| - 1 ==> w.trace[j].ret > 0)
      && (|w.trace| > 0 && LastCall(w.trace).ret <= 0 ==>
            w.code == (if LastCall(w.trace).ret < 0 then -1 else 0))
      && (w.code == 0 ==> |w.trace| > 0 && LastCall(w.trace).ret == 0)
      && (w.code > 0 && !includeLink ==> w.code == 1)
      && (w.code > 0 && includeLink ==>
            |w.trace| > 0 && LastCall(w.trace) == Call(name, level, w.code))
      && (forall j :: 0 <= j < |w.trace| ==>
            w.trace[j].level > level ||
            (j == |w.trace| - 1 && includeLink && w.trace[j] == Call(name, level, w.trace[j].ret)))
      && (Closed(m) && w.code < 0 ==> |w.trace| > 0 && LastCall(w.trace).ret < 0)
      && (((exists c :: IsChild(m[name], c) && c !in m) &&
           (forall j :: 0 <= j < |w.trace| ==> w.trace[j].ret > 0)) ==>
            w.code == -1 && forall j :: 0 <= j < |w.trace| ==> w.trace[j].level > level)
  {
    BottomUpCodes(m, rank, visit, s, name, includeLink, level);
    BottomUpMissingChild(m, rank, visit, s, name, includeLink, level);
  }

  /** The same rules for the loop over the names `names[i..]`: it returns only 1, 0 or -1,
      and a name the model does not hold gives -1 once it is reached. */
  lemma SubtreesSignals<S>(m: Links, rank: map<string, nat>, visit: Visitor<S>, s: S,
                           parent: string, names: seq<string>, i: nat, level: nat)
    requires BottomUpReady(m, rank) && parent in m && i <= |names|
    ensures var w := Subtrees(m, rank, visit, s, parent, names, i, level);
      && (w.code == 1 || w.code == 0 || w.code == -1)
      && (forall j :: 0 <= j < |w.trace| - 1 ==> w.trace[j].ret > 0)
      && (|w.trace| > 0 && LastCall(w.trace).ret <= 0 ==>
            w.code == (if LastCall(w.trace).ret < 0 then -1 else 0))
      && (w.code == 0 ==> |w.trace| > 0 && LastCall(w.trace).ret == 0)
      && (forall j :: 0 <= j < |w.trace| ==> w.trace[j].level >= level)
      && ((Closed(m) && (forall k :: i <= k < |names| ==> IsChild(m[parent], names[k])) &&
           w.code < 0) ==> |w.trace| > 0 && LastCall(w.trace).ret < 0)
      && (((exists k :: i <= k < |names| && names[k] !in m) &&
           (forall j :: 0 <= j < |w.trace| ==> w.trace[j].ret > 0)) ==> w.code == -1)
      && (forall k :: i <= k < |names| && names[k] !in m && (forall q :: i <= q < k ==> names[q] in m) &&
                      (forall j :: 0 <= j < |w.trace| ==> w.trace[j].ret > 0) ==>
            forall j :: 0 <= j < |w.trace| && w.trace[j].level == level ==>
              exists q :: i <= q < k && w.trace[j].link == names[q])
  {
    SubtreesCodes(m, rank, visit, s, parent, names, i, level);
    SubtreesMissing(m, rank, visit, s, parent, names, i, level);
    forall k | i <= k < |names| && names[k] !in m && (forall q :: i <= q < k ==> names[q] in m) {
      SubtreesMissingStops(m, rank, visit, s, parent, names, i, k, level);
    }
  }

  // ---------------------------------------------------------------------------
  // Top-down: which code a stop or a failure leaves behind

  /** No call returned a negative code, and none at a level up to `d` returned 0. */
  ghost predicate NoStopUpTo(t: seq<Call>, d: nat)
  {
    forall j :: 0 <= j < |t| ==> t[j].ret >= 0 && (t[j].level <= d ==> t[j].ret > 0)
  }

  /** Some call at `level` was made on link `n`. */
  ghost predicate CalledAt(t: seq<Call>, n: string, level: nat)
  {
    exists j :: 0 <= j < |t| && t[j].link == n && t[j].level == level
  }

  /** A call at a level up to `d` that returned at most 0 is the last call, and its code is
      the result; a failing last call deeper than `d` makes the result -1. */
  ghost predicate StopsAtOnce(t: seq<Call>, code: int, d: nat)
  {
    && (forall j :: 0 <= j < |t| && t[j].level <= d && t[j].ret <= 0 ==> j == |t| - 1 && code == t[j].ret)
    && (|t| > 0 && code < 0 && LastCall(t).level > d ==> code == -1)
  }

  /** What the loop needs to know of a child's own subtree walk. */
  lemma SubtreeWalkFacts<S>(m: Links, rank: map<string, nat>, visit: Visitor<S>, s: S,
                            c: string, level: nat)
    requires Closed(m) && Ranked(m, rank) && c in m
    ensures var w := TopDown(m, rank, visit, s, c, false, level);
      && (forall j :: 0 <= j < |w.trace| ==> w.trace[j].level > level)
      && (w.code < 0 <==> |w.trace| > 0 && LastCall(w.trace).ret < 0)
  {
    TopDownCodes(m, rank, visit, s, c, false, level);
  }

  /** What a loop needs to know of the rest of the loop. */
  lemma LoopWalkFacts<S>(m: Links, rank: map<string, nat>, visit: Visitor<S>, s: S,
                         parent: string, i: nat, level: nat)
    requires Closed(m) && Ranked(m, rank) && parent in m && i <= |m[parent].childLinks|
    ensures var w := Children(m, rank, visit, s, parent, i, level);
      && (forall j :: 0 <= j < |w.trace| ==> w.trace[j].level >= level)
      && (w.code < 0 ==> |w.trace| > 0)
  {
    ChildrenCodes(m, rank, visit, s, parent, i, level);
  }

  /** StopsAtOnce survives putting calls in front that do not stop at a level up to `d`. */
  lemma StopGlue(head: seq<Call>, rest: seq<Call>, code: int, d: nat)
    requires forall j :: 0 <= j < |head| ==> head[j].level > d || head[j].ret > 0
    requires StopsAtOnce(rest, code, d)
    requires |rest| == 0 ==> code >= -1
    ensures StopsAtOnce(head + rest, code, d)
  {
    var t := head + rest;
    assert forall j :: 0 <= j < |head| ==> t[j] == head[j];
    assert forall j :: |head| <= j < |t| ==> t[j] == rest[j - |head|];
    if |rest| > 0 {
      assert LastCall(t) == LastCall(rest);
    }
  }

  /** The calls of the rest of a walk, seen in the whole walk. */
  lemma SuffixGlue(head: seq<Call>, rest: seq<Call>, d: nat)
    ensures NoStopUpTo(head + rest, d) ==> NoStopUpTo(rest, d)
    ensures forall n, l :: CalledAt(rest, n, l) ==> CalledAt(head + rest, n, l)
  {
    var t := head + rest;
    if NoStopUpTo(t, d) {
      forall j | 0 <= j < |rest| ensures rest[j].ret >= 0 && (rest[j].level <= d ==> rest[j].ret > 0) {
        assert t[j + |head|] == rest[j];
      }
    }
    forall n, l | CalledAt(rest, n, l) ensures CalledAt(t, n, l) {
      var j :| 0 <= j < |rest| && rest[j].link == n && rest[j].level == l;
      assert t[j + |head|] == rest[j];
    }
  }

  /** In the loop over child pointers, a code of at most 0 from a child's own callback call
      ends the loop at once with that code; a failure deeper down is reported as -1. */
  lemma {:induction false} ChildrenStopAtOnce<S>(m: Links, rank: map<string, nat>, visit: Visitor<S>,
                                                 s: S, parent: string, i: nat, level: nat)
    requires Closed(m) && Ranked(m, rank) && parent in m && i <= |m[parent].childLinks|
    ensures var w := Children(m, rank, visit, s, parent, i, level);
      StopsAtOnce(w.trace, w.code, level)
    decreases |m[parent].childLinks| - i
  {
    var kids := m[parent].childLinks;
    if i < |kids| && kids[i].Some? {
      var c := kids[i].value;
      var r, s1 := visit(s, c, level).0, visit(s, c, level).1;
      if r > 0 {
        assert rank[c] < rank[parent];
        SubtreeWalkFacts(m, rank, visit, s1, c, level);
        var sub := TopDown(m, rank, visit, s1, c, false, level);
        var head := [Call(c, level, r)] + sub.trace;
        assert forall j :: 0 < j < |head| ==> head[j] == sub.trace[j - 1];
        if sub.code >= 0 {
          ChildrenStopAtOnce(m, rank, visit, sub.state, parent, i + 1, level);
          LoopWalkFacts(m, rank, visit, sub.state, parent, i + 1, level);
          var rest := Children(m, rank, visit, sub.state, parent, i + 1, level);
          assert Children(m, rank, visit, s, parent, i, level) == Walk(rest.code, rest.state, head + rest.trace);
          StopGlue(head, rest.trace, rest.code, level);
        } else {
          assert Children(m, rank, visit, s, parent, i, level) == Walk(-1, sub.state, head + []);
          StopGlue(head, [], -1, level);
        }
      }
    }
  }

  /** Top-down, a code of at most 0 from the start link or a direct child ends the walk at
      once with that code; a failure deeper down is reported as -1. */
  lemma TopDownStopAtOnce<S>(m: Links, rank: map<string, nat>, visit: Visitor<S>, s: S,
                             name: string, includeLink: bool, level: nat)
    requires Closed(m) && Ranked(m, rank) && name in m
    ensures var w := TopDown(m, rank, visit, s, name, includeLink, level);
      StopsAtOnce(w.trace, w.code, level + 1)
  {
    if includeLink {
      var r, s1 := visit(s, name, level).0, visit(s, name, level).1;
      if r > 0 {
        ChildrenStopAtOnce(m, rank, visit, s1, name, 0, level + 1);
        LoopWalkFacts(m, rank, visit, s1, name, 0, level + 1);
        var w := Children(m, rank, visit, s1, name, 0, level + 1);
        assert TopDown(m, rank, visit, s, name, includeLink, level) ==
               Walk(w.code, w.state, [Call(name, level, r)] + w.trace);
        StopGlue([Call(name, level, r)], w.trace, w.code, level + 1);
      } else {
        assert TopDown(m, rank, visit, s, name, includeLink, level) == Walk(r, s1, [Call(name, level, r)]);
      }
    } else {
      ChildrenStopAtOnce(m, rank, visit, s, name, 0, level + 1);
      LoopWalkFacts(m, rank, visit, s, name, 0, level + 1);
      assert TopDown(m, rank, visit, s, name, includeLink, level) == Children(m, rank, visit, s, name, 0, level + 1);
    }
  }

  /** A 0 or a null pointer deeper down does not stop the loop: when no child's own call
      stops it, nothing fails and no pointer from `i` on is null, the loop returns 1 and
      every child is handed over. */
  lemma {:induction false} ChildrenReachAll<S>(m: Links, rank: map<string, nat>, visit: Visitor<S>,
                                               s: S, parent: string, i: nat, level: nat)
    requires Closed(m) && Ranked(m, rank) && parent in m && i <= |m[parent].childLinks|
    ensures var w := Children(m, rank, visit, s, parent, i, level);
      var kids := m[parent].childLinks;
      (forall k :: i <= k < |kids| ==> kids[k].Some?) && NoStopUpTo(w.trace, level) ==>
        w.code == 1 && forall k :: i <= k < |kids| ==> CalledAt(w.trace, kids[k].value, level)
    decreases |m[parent].childLinks| - i
  {
    var kids := m[parent].childLinks;
    if i < |kids| && kids[i].Some? {
      var c := kids[i].value;
      var r, s1 := visit(s, c, level).0, visit(s, c, level).1;
      if r > 0 {
        assert rank[c] < rank[parent];
        SubtreeWalkFacts(m, rank, visit, s1, c, level);
        var sub := TopDown(m, rank, visit, s1, c, false, level);
        var head := [Call(c, level, r)] + sub.trace;
        assert head[0] == Call(c, level, r);
        if sub.code >= 0 {
          ChildrenReachAll(m, rank, visit, sub.state, parent, i + 1, level);
          var rest := Children(m, rank, visit, sub.state, parent, i + 1, level);
          var t := head + rest.trace;
          assert Children(m, rank, visit, s, parent, i, level) == Walk(rest.code, rest.state, t);
          SuffixGlue(head, rest.trace, level);
          assert t[0] == Call(c, level, r);
        } else {
          assert Children(m, rank, visit, s, parent, i, level) == Walk(-1, sub.state, head);
          assert LastCall(head) == LastCall(sub.trace);
        }
      } else {
        assert Children(m, rank, visit, s, parent, i, level) == Walk(r, s1, [Call(c, level, r)]);
        assert Children(m, rank, visit, s, parent, i, level).trace[0].ret <= 0;
      }
    }
  }

  /** Top-down version of ChildrenReachAll, for the child pointers of the start link. */
  lemma TopDownReachesChildren<S>(m: Links, rank: map<string, nat>, visit: Visitor<S>, s: S,
                                  name: string, includeLink: bool, level: nat)
    requires Closed(m) && Ranked(m, rank) && name in m
    ensures var w := TopDown(m, rank, visit, s, name, includeLink, level);
      var kids := m[name].childLinks;
      (forall k :: 0 <= k < |kids| ==> kids[k].Some?) && NoStopUpTo(w.trace, level + 1) ==>
        w.code == 1 && forall k :: 0 <= k < |kids| ==> CalledAt(w.trace, kids[k].value, level + 1)
  {
    if includeLink {
      var r, s1 := visit(s, name, level).0, visit(s, name, level).1;
      if r > 0 {
        ChildrenReachAll(m, rank, visit, s1, name, 0, level + 1);
        var w := Children(m, rank, visit, s1, name, 0, level + 1);
        assert TopDown(m, rank, visit, s, name, includeLink, level) ==
               Walk(w.code, w.state, [Call(name, level, r)] + w.trace);
        SuffixGlue([Call(name, level, r)], w.trace, level + 1);
      } else {
        assert TopDown(m, rank, visit, s, name, includeLink, level) == Walk(r, s1, [Call(name, level, r)]);
        assert TopDown(m, rank, visit, s, name, includeLink, level).trace[0].ret <= 0;
      }
    } else {
      ChildrenReachAll(m, rank, visit, s, name, 0, level + 1);
    }
  }

  /** The first null child pointer from index `i` ends the loop there: when no call at the
      children's level stopped and no call failed, the code is 0 and the only links called at
      that level are the children before it; the later entries are never handed over. */
  lemma {:induction false} ChildrenNullStops<S>(m: Links, rank: map<string, nat>, visit: Visitor<S>,
                                                s: S, parent: string, i: nat, k: nat, level: nat)
    requires Closed(m) && Ranked(m, rank) && parent in m && i <= k < |m[parent].childLinks|
    requires m[parent].childLinks[k].None?
    requires forall q :: i <= q < k ==> m[parent].childLinks[q].Some?
    ensures var w := Children(m, rank, visit, s, parent, i, level);
      NoStopUpTo(w.trace, level) ==>
        && w.code == 0
        && forall j :: 0 <= j < |w.trace| && w.trace[j].level == level ==>
             exists q :: i <= q < k && m[parent].childLinks[q] == Some(w.trace[j].link)
    decreases k - i
  {
    var kids := m[parent].childLinks;
    if i < k {
      var c := kids[i].value;
      var r, s1 := visit(s, c, level).0, visit(s, c, level).1;
      if r > 0 {
        assert rank[c] < rank[parent];
        SubtreeWalkFacts(m, rank, visit, s1, c, level);
        var sub := TopDown(m, rank, visit, s1, c, false, level);
        var head := [Call(c, level, r)] + sub.trace;
        if sub.code >= 0 {
          ChildrenNullStops(m, rank, visit, sub.state, parent, i + 1, k, level);
          var rest := Children(m, rank, visit, sub.state, parent, i + 1, level);
          var t := head + rest.trace;
          assert Children(m, rank, visit, s, parent, i, level) == Walk(rest.code, rest.state, t);
          SuffixGlue(head, rest.trace, level);
          assert forall j :: 0 < j < |head| ==> t[j] == sub.trace[j - 1];
          assert forall j :: 0 <= j < |t| && t[j].level == level ==> j == 0 || j >= |head|;
          if NoStopUpTo(t, level) {
            forall j | 0 <= j < |t| && t[j].level == level
              ensures exists q :: i <= q < k && kids[q] == Some(t[j].link)
            {
              if j == 0 {
                assert kids[i] == Some(t[0].link);
              } else {
                assert t[j] == rest.trace[j - |head|];
              }
            }
          }
        } else {
          assert Children(m, rank, visit, s, parent, i, level) == Walk(-1, sub.state, head);
          assert LastCall(head) == LastCall(sub.trace);
        }
      } else {
        assert Children(m, rank, visit, s, parent, i, level) == Walk(r, s1, [Call(c, level, r)]);
        assert Children(m, rank, visit, s, parent, i, level).trace[0].ret <= 0;
      }
    }
  }

  /** Top-down version of ChildrenNullStops, for the child pointers of the start link. */
  lemma TopDownNullStops<S>(m: Links, rank: map<string, nat>, visit: Visitor<S>, s: S,
                            name: string, includeLink: bool, level: nat, k: nat)
    requires Closed(m) && Ranked(m, rank) && name in m && k < |m[name].childLinks|
    requires m[name].childLinks[k].None?
    requires forall q :: 0 <= q < k ==> m[name].childLinks[q].Some?
    ensures var w := TopDown(m, rank, visit, s, name, includeLink, level);
      NoStopUpTo(w.trace, level + 1) ==>
        && w.code == 0
        && forall j :: 0 <= j < |w.trace| && w.trace[j].level == level + 1 ==>
             exists q :: 0 <= q < k && m[name].childLinks[q] == Some(w.trace[j].link)
  {
    if includeLink {
      var r, s1 := visit(s, name, level).0, visit(s, name, level).1;
      if r > 0 {
        ChildrenNullStops(m, rank, visit, s1, name, 0, k, level + 1);
        var w := Children(m, rank, visit, s1, name, 0, level + 1);
        var t := [Call(name, level, r)] + w.trace;
        assert TopDown(m, rank, visit, s, name, includeLink, level) == Walk(w.code, w.state, t);
        SuffixGlue([Call(name, level, r)], w.trace, level + 1);
        assert forall j :: 0 < j < |t| ==> t[j] == w.trace[j - 1];
      } else {
        assert TopDown(m, rank, visit, s, name, includeLink, level) == Walk(r, s1, [Call(name, level, r)]);
        assert TopDown(m, rank, visit, s, name, includeLink, level).trace[0].ret <= 0;
      }
    } else {
      ChildrenNullStops(m, rank, visit, s, name, 0, k, level + 1);
    }
  }

  /** Top-down signalling (traverseTreeTopDown, any callback): every call but the last
      returned at least 0 and the code is at most 1; the code is negative exactly when the
      last call was; a code of at most 0 from the start link or a direct child is returned at
      once, unchanged; a failure deeper down becomes -1; a 0 only comes from such a call or a
      null child pointer of the start link; a 0 or a null pointer deeper down does not stop
      the siblings; the start link is handed over first and only with `includeLink`. */
  lemma TopDownSignals<S>(m: Links, rank: map<string, nat>, visit: Visitor<S>, s: S,
                          name: string, includeLink: bool, level: nat)
    requires Closed(m) && Ranked(m, rank) && name in m
    ensures var w := TopDown(m, rank, visit, s, name, includeLink, level);
      && w.code <= 1
      && (w.code < 0 <==> |w.trace| > 0 && LastCall(w.trace).ret < 0)
      && (forall j :: 0 <= j < |w.trace| - 1 ==> w.trace[j].ret >= 0)
      && (forall j :: 0 <= j < |w.trace| && w.trace[j].level <= level + 1 && w.trace[j].ret <= 0 ==>
            j == |w.trace| - 1 && w.code == w.trace[j].ret)
      && (|w.trace| > 0 && w.code < 0 && LastCall(w.trace).level > level + 1 ==> w.code == -1)
      && (w.code == 0 ==>
            (|w.trace| > 0 && LastCall(w.trace).ret == 0 && LastCall(w.trace).level <= level + 1) ||
            (exists k :: 0 <= k < |m[name].childLinks| && m[name].childLinks[k].None?))
      && ((forall k :: 0 <= k < |m[name].childLinks| ==> m[name].childLinks[k].Some?) &&
          NoStopUpTo(w.trace, level + 1) ==>
            w.code == 1 &&
            forall k :: 0 <= k < |m[name].childLinks| ==>
              CalledAt(w.trace, m[name].childLinks[k].value, level + 1))
      && (forall k :: 0 <= k < |m[name].childLinks| && m[name].childLinks[k].None? &&
                      (forall q :: 0 <= q < k ==> m[name].childLinks[q].Some?) &&
                      NoStopUpTo(w.trace, level + 1) ==>
            && w.code == 0
            && forall j :: 0 <= j < |w.trace| && w.trace[j].level == level + 1 ==>
                 exists q :: 0 <= q < k && m[name].childLinks[q] == Some(w.trace[j].link))
      && (includeLink ==> |w.trace| > 0 && w.trace[0].link == name && w.trace[0].level == level)
      && (forall j :: 0 <= j < |w.trace| ==> w.trace[j].level > level || (j == 0 && includeLink))
  {
    TopDownCodes(m, rank, visit, s, name, includeLink, level);
    TopDownStopAtOnce(m, rank, visit, s, name, includeLink, level);
    TopDownReachesChildren(m, rank, visit, s, name, includeLink, level);
    forall k | 0 <= k < |m[name].childLinks| && m[name].childLinks[k].None? &&
               (forall q :: 0 <= q < k ==> m[name].childLinks[q].Some?)
    {
      TopDownNullStops(m, rank, visit, s, name, includeLink, level, k);
    }
  }

  /** The same rules for the loop over the child pointers of `parent` from index `i`, the
      children being at `level`. */
  lemma ChildrenSignals<S>(m: Links, rank: map<string, nat>, visit: Visitor<S>, s: S,
                           parent: string, i: nat, level: nat)
    requires Closed(m) && Ranked(m, rank) && parent in m && i <= |m[parent].childLinks|
    ensures var w := Children(m, rank, visit, s, parent, i, level);
      && w.code <= 1
      && (w.code < 0 <==> |w.trace| > 0 && LastCall(w.trace).ret < 0)
      && (forall j :: 0 <= j < |w.trace| - 1 ==> w.trace[j].ret >= 0)
      && (forall j :: 0 <= j < |w.trace| && w.trace[j].level == level && w.trace[j].ret <= 0 ==>
            j == |w.trace| - 1 && w.code == w.trace[j].ret)
      && (|w.trace| > 0 && w.code < 0 && LastCall(w.trace).level > level ==> w.code == -1)
      && (w.code == 0 ==>
            (|w.trace| > 0 && LastCall(w.trace).ret == 0 && LastCall(w.trace).level == level) ||
            (exists k :: i <= k < |m[parent].childLinks| && m[parent].childLinks[k].None?))
      && ((forall k :: i <= k < |m[parent].childLinks| ==> m[parent].childLinks[k].Some?) &&
          NoStopUpTo(w.trace, level) ==>
            w.code == 1 &&
            forall k :: i <= k < |m[parent].childLinks| ==>
              CalledAt(w.trace, m[parent].childLinks[k].value, level))
      && (forall k :: i <= k < |m[parent].childLinks| && m[parent].childLinks[k].None? &&
                      (forall q :: i <= q < k ==> m[parent].childLinks[q].Some?) &&
                      NoStopUpTo(w.trace, level) ==>
            && w.code == 0
            && forall j :: 0 <= j < |w.trace| && w.trace[j].level == level ==>
                 exists q :: i <= q < k && m[parent].childLinks[q] == Some(w.trace[j].link))
      && (forall j :: 0 <= j < |w.trace| ==> w.trace[j].level >= level)
  {
    ChildrenCodes(m, rank, visit, s, parent, i, level);
    ChildrenStopAtOnce(m, rank, visit, s, parent, i, level);
    ChildrenReachAll(m, rank, visit, s, parent, i, level);
    forall k | i <= k < |m[parent].childLinks| && m[parent].childLinks[k].None? &&
               (forall q :: i <= q < k ==> m[parent].childLinks[q].Some?)
    {
      ChildrenNullStops(m, rank, visit, s, parent, i, k, level);
    }
  }
}
