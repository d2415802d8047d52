/** The traversal engine of UrdfTraverser: the top-down and the bottom-up walk over the link
    tree with a caller-supplied callback and a recursion-parameters object shared by the whole
    walk.

    The callback is a function from the current parameters, the visited link and its level to
    its return code and the new parameters; the parameters object is threaded through the
    walk. Each walk is given twice: as a specification function that also returns the trace
    of callback calls, and as the imperative method the source runs, proved to return the
    same code and parameters. */
module Traversal {
  import opened UrdfModel
  import opened SortedNames

  /** The callback: positive to continue, 0 to stop, negative for an error. */
  type Visitor<!S> = (S, string, nat) -> (int, S)

  /** One callback call: the link and level it was handed, and what it returned. */
  datatype Call = Call(link: string, level: nat, ret: int)

  /** A finished walk: its return code, the final parameters and the calls made, in order. */
  datatype Walk<S> = Walk(code: int, state: S, trace: seq<Call>)

  function LastCall(t: seq<Call>): Call
    requires |t| > 0
  {
    t[|t| - 1]
  }

  // ---------------------------------------------------------------------------
  // Top-down walk

  /** traverseTreeTopDown(link, cb, params, includeLink, level). */
  function TopDown<S>(m: Links, ghost rank: map<string, nat>, visit: Visitor<S>, s: S,
                      name: string, includeLink: bool, level: nat): (w: Walk<S>)
    requires Closed(m) && Ranked(m, rank) && name in m
    decreases rank[name], 1
  {
    if includeLink then
      var (r, s1) := visit(s, name, level);
      if r <= 0 then Walk(r, s1, [Call(name, level, r)])
      else
        var w := Children(m, rank, visit, s1, name, 0, level + 1);
        Walk(w.code, w.state, [Call(name, level, r)] + w.trace)
    else
      Children(m, rank, visit, s, name, 0, level + 1)
  }

  /** The loop of traverseTreeTopDown over the child pointers of `parent` from index `i`,
      the children being at `level`. */
  function Children<S>(m: Links, ghost rank: map<string, nat>, visit: Visitor<S>, s: S,
                       parent: string, i: nat, level: nat): (w: Walk<S>)
    requires Closed(m) && Ranked(m, rank) && parent in m && i <= |m[parent].childLinks|
    decreases rank[parent], 0, |m[parent].childLinks| - i
  {
    var kids := m[parent].childLinks;
    if i == |kids| then Walk(1, s, [])
    else match kids[i]
      case None => Walk(0, s, [])
      case Some(c) =>
        var (r, s1) := visit(s, c, level);
        if r <= 0 then Walk(r, s1, [Call(c, level, r)])
        else
          assert rank[c] < rank[parent];
          var sub := TopDown(m, rank, visit, s1, c, false, level);
          if sub.code < 0 then Walk(-1, sub.state, [Call(c, level, r)] + sub.trace)
          else
            var rest := Children(m, rank, visit, sub.state, parent, i + 1, level);
            Walk(rest.code, rest.state, [Call(c, level, r)] + sub.trace + rest.trace)
  }

  /** traverseTreeTopDown(link, cb, params, includeLink, level), as the source runs it. */
  method TraverseTopDown<S>(m: Links, ghost rank: map<string, nat>, visit: Visitor<S>, s: S,
                            name: string, includeLink: bool, level: nat)
    returns (ret: int, params: S)
    requires Closed(m) && Ranked(m, rank) && name in m
    ensures ret == TopDown(m, rank, visit, s, name, includeLink, level).code
    ensures params == TopDown(m, rank, visit, s, name, includeLink, level).state
    decreases rank[name]
  {
    params := s;
    if includeLink {
      var called := visit(params, name, level);
      var linkRet := called.0;
      params := called.1;
      if linkRet <= 0 {
        return linkRet, params;
      }
    }
    ghost var start := params;
    var kids := m[name].childLinks;
    var i := 0;
    while i < |kids|
      invariant 0 <= i <= |kids|
      invariant Children(m, rank, visit, start, name, 0, level + 1).code ==
                Children(m, rank, visit, params, name, i, level + 1).code
      invariant Children(m, rank, visit, start, name, 0, level + 1).state ==
                Children(m, rank, visit, params, name, i, level + 1).state
    {
      match kids[i] {
        case None =>
          return 0, params;
        case Some(child) =>
          var called := visit(params, child, level + 1);
          var linkRet := called.0;
          params := called.1;
          if linkRet <= 0 {
            return linkRet, params;
          }
          assert rank[child] < rank[name];
          var subRet;
          subRet, params := TraverseTopDown(m, rank, visit, params, child, false, level + 1);
          if subRet < 0 {
            return -1, params;
          }
      }
      i := i + 1;
    }
    return 1, params;
  }

  /** traverseTreeTopDown(linkName, cb, params, includeLink): look the link up, then walk
      from it at level 0. */
  method TraverseTopDownFrom<S>(m: Links, ghost rank: map<string, nat>, visit: Visitor<S>,
                                s: S, linkName: string, includeLink: bool)
    returns (ret: int, params: S)
    requires Closed(m) && Ranked(m, rank)
    ensures linkName !in m ==> ret == -1 && params == s
    ensures linkName in m ==> ret == TopDown(m, rank, visit, s, linkName, includeLink, 0).code
    ensures linkName in m ==> params == TopDown(m, rank, visit, s, linkName, includeLink, 0).state
  {
    if linkName !in m {
      return -1, s;
    }
    ret, params := TraverseTopDown(m, rank, visit, s, linkName, includeLink, 0);
  }

  // ---------------------------------------------------------------------------
  // Bottom-up walk

  /** The bottom-up walk dereferences every child pointer to read its name. */
  ghost predicate BottomUpReady(m: Links, rank: map<string, nat>)
  {
    NoNullChildren(m) && Ranked(m, rank)
  }

  /** traverseTreeBottomUp(link, cb, params, includeLink, level). */
  function BottomUp<S>(m: Links, ghost rank: map<string, nat>, visit: Visitor<S>, s: S,
                       name: string, includeLink: bool, level: nat): (w: Walk<S>)
    requires BottomUpReady(m, rank) && name in m
    decreases rank[name], 1
  {
    var w := Subtrees(m, rank, visit, s, name, SortedChildNames(m[name]), 0, level + 1);
    if w.code <= 0 then w
    else if !includeLink then Walk(1, w.state, w.trace)
    else
      var (r, s1) := visit(w.state, name, level);
      Walk(if r < 0 then -1 else r, s1, w.trace + [Call(name, level, r)])
  }

  /** The loop of traverseTreeBottomUp over the names `names[i..]` taken from the child set of
      `parent`, the children being at `level`. It returns 1 when the loop runs to its end. */
  function Subtrees<S>(m: Links, ghost rank: map<string, nat>, visit: Visitor<S>, s: S,
                       parent: string, names: seq<string>, i: nat, level: nat): (w: Walk<S>)
    requires BottomUpReady(m, rank) && parent in m && i <= |names|
    decreases rank[parent], 0, |names| - i
  {
    if i == |names| then Walk(1, s, [])
    else if !IsChild(m[parent], names[i]) then Walk(-1, s, [])
    else if names[i] !in m then Walk(-1, s, [])
    else
      ChildRank(m, rank, parent, names[i]);
      var sub := BottomUp(m, rank, visit, s, names[i], true, level);
      if sub.code == 0 then Walk(0, sub.state, sub.trace)
      else if sub.code < 0 then Walk(-1, sub.state, sub.trace)
      else
        var rest := Subtrees(m, rank, visit, sub.state, parent, names, i + 1, level);
        Walk(rest.code, rest.state, sub.trace + rest.trace)
  }

  /** traverseTreeBottomUp(link, cb, params, includeLink, level), as the source runs it. */
  method TraverseBottomUp<S>(m: Links, ghost rank: map<string, nat>, visit: Visitor<S>, s: S,
                             name: string, includeLink: bool, level: nat)
    returns (ret: int, params: S)
    requires BottomUpReady(m, rank) && name in m
    ensures ret == BottomUp(m, rank, visit, s, name, includeLink, level).code
    ensures params == BottomUp(m, rank, visit, s, name, includeLink, level).state
    decreases rank[name]
  {
    var link := m[name];
    // collect the child names into the ordered set `toTraverse`
    var toTraverse: seq<string> := [];
    var i := 0;
    while i < |link.childLinks|
      invariant 0 <= i <= |link.childLinks|
      invariant toTraverse == InsertAll(ChildNames(link)[..i])
    {
      assert ChildNames(link)[..i + 1][..i] == ChildNames(link)[..i];
      toTraverse := Insert(toTraverse, link.childLinks[i].value);
      i := i + 1;
    }
    assert ChildNames(link)[..i] == ChildNames(link);
    params := s;
    var k := 0;
    while k < |toTraverse|
      invariant 0 <= k <= |toTraverse|
      invariant Subtrees(m, rank, visit, s, name, toTraverse, 0, level + 1).code ==
                Subtrees(m, rank, visit, params, name, toTraverse, k, level + 1).code
      invariant Subtrees(m, rank, visit, s, name, toTraverse, 0, level + 1).state ==
                Subtrees(m, rank, visit, params, name, toTraverse, k, level + 1).state
    {
      var childName := toTraverse[k];
      var has := HasChildLink(link, childName);
      if !has {
        return -1, params;
      }
      if childName !in m {
        return -1, params;
      }
      ChildRank(m, rank, name, childName);
      var travRes;
      travRes, params := TraverseBottomUp(m, rank, visit, params, childName, true, level + 1);
      if travRes == 0 {
        return 0, params;
      } else if travRes < 0 {
        return -1, params;
      }
      k := k + 1;
    }
    if !includeLink {
      return 1, params;
    }
    var called := visit(params, name, level);
    var cbRet := called.0;
    params := called.1;
    if cbRet < 0 {
      return -1, params;
    }
    return cbRet, params;
  }

  /** traverseTreeBottomUp(linkName, cb, params, includeLink): look the link up, then walk
      from it at level 0. */
  method TraverseBottomUpFrom<S>(m: Links, ghost rank: map<string, nat>, visit: Visitor<S>,
                                 s: S, linkName: string, includeLink: bool)
    returns (ret: int, params: S)
    requires BottomUpReady(m, rank)
    ensures linkName !in m ==> ret == -1 && params == s
    ensures linkName in m ==> ret == BottomUp(m, rank, visit, s, linkName, includeLink, 0).code
    ensures linkName in m ==> params == BottomUp(m, rank, visit, s, linkName, includeLink, 0).state
  {
    if linkName !in m {
      return -1, s;
    }
    ret, params := TraverseBottomUp(m, rank, visit, s, linkName, includeLink, 0);
  }
}
