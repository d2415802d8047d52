/** Small concrete robots on which the two walks differ: what a stop signal or a null child
    pointer deep in the tree does, and what a child listed twice does. */
module Scenarios {
  import opened UrdfModel
  import opened Traversal
  import opened SortedNames

  const Origin := Pose(Vector3(0.0, 0.0, 0.0), Quaternion(1.0, 0.0, 0.0, 0.0))

  function Node(children: seq<Option<string>>): Link
  {
    Link(children, [], None, Origin)
  }

  /** Link "r" with the children "a" and "b"; "a" has the child "c". */
  function Fork(): Links
  {
    map["r" := Node([Some("a"), Some("b")]), "a" := Node([Some("c")]),
        "b" := Node([]), "c" := Node([])]
  }

  function ForkRank(): map<string, nat>
  {
    map["r" := 2, "a" := 1, "b" := 0, "c" := 0]
  }

  /** A callback counting its calls, asking to stop at "c" and to go on everywhere else. */
  function StopAtC(): Visitor<int>
  {
    (s: int, n: string, l: nat) => (if n == "c" then 0 else 1, s + 1)
  }

  /** Fork() is closed and acyclic. */
  lemma ForkShape()
    ensures Closed(Fork()) && Ranked(Fork(), ForkRank())
  {
    var m, rank := Fork(), ForkRank();
    forall k, i | k in m && 0 <= i < |m[k].childLinks| && m[k].childLinks[i].Some?
      ensures m[k].childLinks[i].value in m && rank[m[k].childLinks[i].value] < rank[k]
    {
      assert k == "r" || k == "a";
    }
  }

  /** Below "a" the walk stops at "c", which the recursive call reports as 0. */
  lemma ForkStopBelowA()
    ensures Closed(Fork()) && Ranked(Fork(), ForkRank())
    ensures TopDown(Fork(), ForkRank(), StopAtC(), 1, "a", false, 1) == Walk(0, 2, [Call("c", 2, 0)])
  {
    var m, rank, v := Fork(), ForkRank(), StopAtC();
    ForkShape();
    assert m["a"].childLinks[0] == Some("c") && v(1, "c", 2) == (0, 2);
    assert Children(m, rank, v, 1, "a", 0, 2) == Walk(0, 2, [Call("c", 2, 0)]);
  }

  /** Top-down, the stop asked for at "c" ends only the walk below "a": "b" is still visited
      and the walk from "r" reports 1. */
  lemma TopDownNestedStop()
    ensures Closed(Fork()) && Ranked(Fork(), ForkRank())
    ensures TopDown(Fork(), ForkRank(), StopAtC(), 0, "r", false, 0) ==
            Walk(1, 3, [Call("a", 1, 1), Call("c", 2, 0), Call("b", 1, 1)])
  {
    var m, rank, v := Fork(), ForkRank(), StopAtC();
    ForkStopBelowA();
    assert m["b"].childLinks == [];
    assert TopDown(m, rank, v, 3, "b", false, 1) == Walk(1, 3, []);
    assert m["r"].childLinks[1] == Some("b") && v(2, "b", 1) == (1, 3);
    assert Children(m, rank, v, 2, "r", 1, 1) == Walk(1, 3, [Call("b", 1, 1)]);
    assert m["r"].childLinks[0] == Some("a") && v(0, "a", 1) == (1, 1);
  }

  /** The child names of Fork() in the order the bottom-up walk takes them. */
  lemma ForkNames()
    ensures SortedChildNames(Fork()["r"]) == ["a", "b"]
    ensures SortedChildNames(Fork()["a"]) == ["c"]
    ensures SortedChildNames(Fork()["c"]) == []
    ensures IsChild(Fork()["r"], "a") && IsChild(Fork()["a"], "c")
  {
    var m := Fork();
    assert ChildNames(m["r"]) == ["a", "b"];
    assert ["a", "b"][..1] == ["a"];
    assert !Less("b", "a");
    assert Insert(["a"], "b") == ["a", "b"];
    assert m["a"].childLinks[0] == Some("c");
    assert m["r"].childLinks[0] == Some("a");
  }

  /** Bottom-up, the same stop ends the whole walk: neither "a", "b" nor "r" is visited and
      the walk reports 0. */
  lemma BottomUpNestedStop()
    ensures BottomUpReady(Fork(), ForkRank())
    ensures BottomUp(Fork(), ForkRank(), StopAtC(), 0, "r", true, 0) ==
            Walk(0, 1, [Call("c", 2, 0)])
  {
    var m, rank, v := Fork(), ForkRank(), StopAtC();
    ForkNames();
    assert BottomUp(m, rank, v, 0, "c", true, 2) == Walk(0, 1, [Call("c", 2, 0)]);
    assert Subtrees(m, rank, v, 0, "a", ["c"], 0, 2) == Walk(0, 1, [Call("c", 2, 0)]);
    assert BottomUp(m, rank, v, 0, "a", true, 1) == Walk(0, 1, [Call("c", 2, 0)]);
    assert Subtrees(m, rank, v, 0, "r", ["a", "b"], 0, 1) == Walk(0, 1, [Call("c", 2, 0)]);
  }

  /** Link "r" with the child "a", which has a null child pointer. */
  function Broken(): Links
  {
    map["r" := Node([Some("a")]), "a" := Node([None])]
  }

  function BrokenRank(): map<string, nat>
  {
    map["r" := 1, "a" := 0]
  }

  /** A callback counting its calls and always asking to go on. */
  function Count(): Visitor<int>
  {
    (s: int, n: string, l: nat) => (1, s + 1)
  }

  /** Top-down, a null child pointer fails the walk only when it belongs to the start link:
      from "a" the walk reports 0, from "r" the null pointer below "a" goes unnoticed. */
  lemma TopDownNestedNull()
    ensures Closed(Broken()) && Ranked(Broken(), BrokenRank())
    ensures TopDown(Broken(), BrokenRank(), Count(), 0, "a", true, 0) ==
            Walk(0, 1, [Call("a", 0, 1)])
    ensures TopDown(Broken(), BrokenRank(), Count(), 0, "r", true, 0) ==
            Walk(1, 2, [Call("r", 0, 1), Call("a", 1, 1)])
  {
    var m, rank, v := Broken(), BrokenRank(), Count();
    assert Children(m, rank, v, 1, "a", 0, 1) == Walk(0, 1, []);
    assert Children(m, rank, v, 2, "a", 0, 2) == Walk(0, 2, []);
    assert TopDown(m, rank, v, 2, "a", false, 1) == Walk(0, 2, []);
    assert Children(m, rank, v, 2, "r", 1, 1) == Walk(1, 2, []);
  }

  /** Link "r" lists its child "a" twice. */
  function Twice(): Links
  {
    map["r" := Node([Some("a"), Some("a")]), "a" := Node([])]
  }

  function TwiceRank(): map<string, nat>
  {
    map["r" := 1, "a" := 0]
  }

  /** The child names of Twice() in the order the bottom-up walk takes them. */
  lemma TwiceNames()
    ensures SortedChildNames(Twice()["r"]) == ["a"]
    ensures SortedChildNames(Twice()["a"]) == []
    ensures IsChild(Twice()["r"], "a")
  {
    var m := Twice();
    assert ChildNames(m["r"]) == ["a", "a"];
    assert ["a", "a"][..1] == ["a"];
    assert InsertAll(["a"]) == ["a"];
    assert Insert(["a"], "a") == ["a"];
    assert m["r"].childLinks[0] == Some("a");
  }

  /** Top-down follows both pointers and visits "a" twice. */
  lemma DuplicateChildTopDown()
    ensures Closed(Twice()) && Ranked(Twice(), TwiceRank())
    ensures TopDown(Twice(), TwiceRank(), Count(), 0, "r", true, 0) ==
            Walk(1, 3, [Call("r", 0, 1), Call("a", 1, 1), Call("a", 1, 1)])
  {
    var m, rank, v := Twice(), TwiceRank(), Count();
    assert Children(m, rank, v, 2, "r", 1, 1) == Walk(1, 3, [Call("a", 1, 1)]);
    assert Children(m, rank, v, 1, "r", 0, 1) == Walk(1, 3, [Call("a", 1, 1), Call("a", 1, 1)]);
  }

  /** Bottom-up goes over the set of child names and visits "a" once. */
  lemma DuplicateChildBottomUp()
    ensures BottomUpReady(Twice(), TwiceRank())
    ensures BottomUp(Twice(), TwiceRank(), Count(), 0, "r", true, 0) ==
            Walk(1, 2, [Call("a", 1, 1), Call("r", 0, 1)])
  {
    var m, rank, v := Twice(), TwiceRank(), Count();
    TwiceNames();
    assert BottomUp(m, rank, v, 0, "a", true, 1) == Walk(1, 1, [Call("a", 1, 1)]);
    assert Subtrees(m, rank, v, 0, "r", ["a"], 0, 1) == Walk(1, 1, [Call("a", 1, 1)]);
  }
}
