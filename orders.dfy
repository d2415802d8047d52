/** Sequences of visits (a link and the level it was handed over at) and the three facts the
    ordering theorems are made of: no link occurs twice, parents come before their children
    (or after them), and one sequence is obtained from another by leaving visits out. */
module Orders {
  import opened UrdfModel
  import opened Traversal

  /** A callback call without its return code. */
  datatype Visit = Visit(link: string, level: nat)

  /** The visits of a trace, in order. */
  function Visited(t: seq<Call>): seq<Visit>
  {
    seq(|t|, j requires 0 <= j < |t| => Visit(t[j].link, t[j].level))
  }

  lemma VisitedConcat(a: seq<Call>, b: seq<Call>)
    ensures Visited(a + b) == Visited(a) + Visited(b)
  {
    assert forall j :: 0 <= j < |a| ==> (a + b)[j] == a[j];
    assert forall j :: |a| <= j < |a| + |b| ==> (a + b)[j] == b[j - |a|];
  }

  /** No link is visited twice. */
  ghost predicate LinksDistinct(v: seq<Visit>)
  {
    forall j, k :: 0 <= j < k < |v| ==> v[j].link != v[k].link
  }

  /** A link is visited before each of its children. */
  ghost predicate ParentsFirst(m: Links, v: seq<Visit>)
  {
    forall j, k :: 0 <= j < |v| && 0 <= k < |v| && ChildOf(m, v[j].link, v[k].link) ==> j < k
  }

  /** A link is visited after each of its children. */
  ghost predicate ChildrenFirst(m: Links, v: seq<Visit>)
  {
    forall j, k :: 0 <= j < |v| && 0 <= k < |v| && ChildOf(m, v[j].link, v[k].link) ==> k < j
  }

  lemma DistinctConcat(x: seq<Visit>, y: seq<Visit>)
    requires LinksDistinct(x) && LinksDistinct(y)
    requires forall v, w :: v in x && w in y ==> v.link != w.link
    ensures LinksDistinct(x + y)
  {
    forall j, k | 0 <= j < k < |x + y| ensures (x + y)[j].link != (x + y)[k].link {
    }
  }

  lemma ParentsFirstConcat(m: Links, x: seq<Visit>, y: seq<Visit>)
    requires ParentsFirst(m, x) && ParentsFirst(m, y)
    requires forall v, w :: v in x && w in y ==> !ChildOf(m, w.link, v.link)
    ensures ParentsFirst(m, x + y)
  {
    var z := x + y;
    forall j, k | 0 <= j < |z| && 0 <= k < |z| && ChildOf(m, z[j].link, z[k].link) ensures j < k {
      if |x| <= j {
        assert z[j] == y[j - |x|];
        if |x| <= k {
          assert z[k] == y[k - |x|];
        }
      } else if k < |x| {
        assert z[j] == x[j] && z[k] == x[k];
      }
    }
  }

  lemma ChildrenFirstConcat(m: Links, x: seq<Visit>, y: seq<Visit>)
    requires ChildrenFirst(m, x) && ChildrenFirst(m, y)
    requires forall v, w :: v in x && w in y ==> !ChildOf(m, v.link, w.link)
    ensures ChildrenFirst(m, x + y)
  {
    var z := x + y;
    forall j, k | 0 <= j < |z| && 0 <= k < |z| && ChildOf(m, z[j].link, z[k].link) ensures k < j {
      if |x| <= k {
        assert z[k] == y[k - |x|];
        if |x| <= j {
          assert z[j] == y[j - |x|];
        }
      } else if j < |x| {
        assert z[j] == x[j] && z[k] == x[k];
      }
    }
  }

  /** `x` is `y` with some visits left out. */
  ghost predicate Subseq(x: seq<Visit>, y: seq<Visit>)
    decreases |y|
  {
    |x| == 0 || (|y| > 0 && ((x[0] == y[0] && Subseq(x[1..], y[1..])) || Subseq(x, y[1..])))
  }

  lemma {:induction false} SubseqRefl(x: seq<Visit>)
    ensures Subseq(x, x)
    decreases |x|
  {
    if |x| > 0 { SubseqRefl(x[1..]); }
  }

  lemma {:induction false} SubseqPrepend(x: seq<Visit>, y: seq<Visit>, z: seq<Visit>)
    requires Subseq(x, z)
    ensures Subseq(x, y + z)
    decreases |y|
  {
    if |y| == 0 {
      assert y + z == z;
    } else if |x| > 0 {
      SubseqPrepend(x, y[1..], z);
      assert (y + z)[1..] == y[1..] + z;
    }
  }

  lemma {:induction false} SubseqConcat(a: seq<Visit>, b: seq<Visit>, c: seq<Visit>, d: seq<Visit>)
    requires Subseq(a, b) && Subseq(c, d)
    ensures Subseq(a + c, b + d)
    decreases |b|
  {
    if |a| == 0 {
      assert a + c == c;
      SubseqPrepend(c, b, d);
    } else {
      assert (b + d)[1..] == b[1..] + d;
      if a[0] == b[0] && Subseq(a[1..], b[1..]) {
        SubseqConcat(a[1..], b[1..], c, d);
        assert (a + c)[1..] == a[1..] + c;
      } else {
        SubseqConcat(a, b[1..], c, d);
      }
    }
  }

  lemma {:induction false} SubseqMembers(x: seq<Visit>, y: seq<Visit>)
    requires Subseq(x, y)
    ensures forall v :: v in x ==> v in y
    decreases |y|
  {
    if |x| > 0 {
      assert y == [y[0]] + y[1..];
      if x[0] == y[0] && Subseq(x[1..], y[1..]) {
        SubseqMembers(x[1..], y[1..]);
        assert x == [x[0]] + x[1..];
      } else {
        SubseqMembers(x, y[1..]);
      }
    }
  }

  lemma {:induction false} SubseqDistinct(x: seq<Visit>, y: seq<Visit>)
    requires Subseq(x, y) && LinksDistinct(y)
    ensures LinksDistinct(x)
    decreases |y|
  {
    if |x| > 0 {
      assert LinksDistinct(y[1..]) by {
        forall j, k | 0 <= j < k < |y[1..]| ensures y[1..][j].link != y[1..][k].link {
          assert y[1..][j] == y[j + 1] && y[1..][k] == y[k + 1];
        }
      }
      if x[0] == y[0] && Subseq(x[1..], y[1..]) {
        SubseqDistinct(x[1..], y[1..]);
        SubseqMembers(x[1..], y[1..]);
        forall k | 0 < k < |x| ensures x[0].link != x[k].link {
          assert x[k] == x[1..][k - 1] && x[1..][k - 1] in x[1..];
          var n :| 0 <= n < |y[1..]| && y[1..][n] == x[k];
          assert y[n + 1] == x[k];
        }
        forall j, k | 0 < j < k < |x| ensures x[j].link != x[k].link {
          assert x[j] == x[1..][j - 1] && x[k] == x[1..][k - 1];
        }
      } else {
        SubseqDistinct(x, y[1..]);
      }
    }
  }

  /** A prefix is obtained by leaving visits out. */
  lemma {:induction false} PrefixSubseq(x: seq<Visit>, y: seq<Visit>)
    requires x <= y
    ensures Subseq(x, y)
  {
    SubseqRefl(x);
    SubseqConcat(x, x, [], y[|x|..]);
    assert x + [] == x && x + y[|x|..] == y;
  }

  lemma PrefixExtend(x: seq<Visit>, y: seq<Visit>, z: seq<Visit>)
    requires x <= y
    ensures x <= y + z
  {
    assert (y + z)[..|x|] == y[..|x|];
  }

  lemma PrefixAppend(x: seq<Visit>, y: seq<Visit>, z: seq<Visit>)
    requires y <= z
    ensures x + y <= x + z
  {
    assert (x + z)[..|x + y|] == x + z[..|y|];
  }

  /** What a sequence promises about the order of its visits, a prefix of it promises too. */
  lemma PrefixKeeps(m: Links, x: seq<Visit>, y: seq<Visit>)
    requires x <= y
    ensures LinksDistinct(y) ==> LinksDistinct(x)
    ensures ChildrenFirst(m, y) ==> ChildrenFirst(m, x)
    ensures forall v :: v in x ==> v in y
  {
    assert forall j :: 0 <= j < |x| ==> x[j] == y[j];
  }
}
