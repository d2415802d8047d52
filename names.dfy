/** The `std::set<std::string>` the bottom-up walk builds from a link's child names: a
    strictly ascending sequence under the lexicographic order of `std::string`, into which
    names are inserted one by one. */
module SortedNames {
  import opened UrdfModel

  /** `std::string` less-than: lexicographic on character codes, a proper prefix first. */
  predicate Less(a: string, b: string)
    decreases |a|
  {
    if |a| == 0 then |b| > 0
    else if |b| == 0 then false
    else a[0] < b[0] || (a[0] == b[0] && Less(a[1..], b[1..]))
  }

  lemma {:induction false} LessIrreflexive(a: string)
    ensures !Less(a, a)
    decreases |a|
  {
    if |a| > 0 { LessIrreflexive(a[1..]); }
  }

  lemma {:induction false} LessTransitive(a: string, b: string, c: string)
    requires Less(a, b) && Less(b, c)
    ensures Less(a, c)
    decreases |a|
  {
    if |a| > 0 && a[0] == b[0] && b[0] == c[0] {
      LessTransitive(a[1..], b[1..], c[1..]);
    }
  }

  lemma {:induction false} LessTotal(a: string, b: string)
    requires a != b
    ensures Less(a, b) || Less(b, a)
    decreases |a|
  {
    if |a| > 0 && |b| > 0 && a[0] == b[0] {
      assert a == [a[0]] + a[1..] && b == [b[0]] + b[1..];
      LessTotal(a[1..], b[1..]);
    }
  }

  /** Every name comes strictly before every later one: ascending and without duplicates. */
  predicate StrictlySorted(s: seq<string>)
  {
    forall i, j :: 0 <= i < j < |s| ==> Less(s[i], s[j])
  }

  /** `std::set::insert`: add `x` at its place unless it is already present. */
  function Insert(s: seq<string>, x: string): (r: seq<string>)
    requires StrictlySorted(s)
    ensures StrictlySorted(r)
    ensures forall y :: y in r <==> y in s || y == x
    decreases |s|
  {
    if |s| == 0 then [x]
    else if x == s[0] then s
    else if Less(x, s[0]) then
      assert forall j :: 0 < j < |s| ==> Less(x, s[j]) by {
        forall j | 0 < j < |s| ensures Less(x, s[j]) { LessTransitive(x, s[0], s[j]); }
      }
      [x] + s
    else
      LessTotal(x, s[0]);
      var t := Insert(s[1..], x);
      assert forall y :: y in s <==> y == s[0] || y in s[1..] by {
        assert s == [s[0]] + s[1..];
      }
      assert forall j :: 0 <= j < |t| ==> Less(s[0], t[j]) by {
        forall j | 0 <= j < |t| ensures Less(s[0], t[j]) {
          assert t[j] in t;
          if t[j] != x {
            var k :| 0 <= k < |s[1..]| && s[1..][k] == t[j];
            assert s[k + 1] == t[j];
          }
        }
      }
      [s[0]] + t
  }

  /** The child names of a link, in the order of its child pointers. */
  function ChildNames(link: Link): (names: seq<string>)
    requires forall i :: 0 <= i < |link.childLinks| ==> link.childLinks[i].Some?
    ensures |names| == |link.childLinks|
    ensures forall i :: 0 <= i < |names| ==> link.childLinks[i] == Some(names[i])
  {
    seq(|link.childLinks|, i requires 0 <= i < |link.childLinks| => link.childLinks[i].value)
  }

  /** The names in `names` inserted one after the other into an empty set. */
  function InsertAll(names: seq<string>): (r: seq<string>)
    ensures StrictlySorted(r)
    decreases |names|
  {
    if |names| == 0 then [] else Insert(InsertAll(names[..|names| - 1]), names[|names| - 1])
  }

  lemma {:induction false} InsertAllMembers(names: seq<string>)
    ensures forall y :: y in InsertAll(names) <==> y in names
    decreases |names|
  {
    if |names| > 0 {
      var init := names[..|names| - 1];
      InsertAllMembers(init);
      assert names == init + [names[|names| - 1]];
    }
  }

  /** The `toTraverse` set of the bottom-up walk. */
  function SortedChildNames(link: Link): (r: seq<string>)
    requires forall i :: 0 <= i < |link.childLinks| ==> link.childLinks[i].Some?
  {
    InsertAll(ChildNames(link))
  }

  /** `toTraverse` lists each child name once, in ascending order, and nothing else. */
  lemma SortedChildNamesSpec(link: Link)
    requires forall i :: 0 <= i < |link.childLinks| ==> link.childLinks[i].Some?
    ensures StrictlySorted(SortedChildNames(link))
    ensures forall y :: y in SortedChildNames(link) <==> IsChild(link, y)
  {
    var names := ChildNames(link);
    InsertAllMembers(names);
    forall y ensures y in names <==> IsChild(link, y) {
      if y in names {
        var i :| 0 <= i < |names| && names[i] == y;
        assert link.childLinks[i] == Some(y);
      }
      if IsChild(link, y) {
        var i :| 0 <= i < |link.childLinks| && link.childLinks[i] == Some(y);
        assert names[i] == y;
      }
    }
  }

  /** A strictly sorted sequence holds no name twice. */
  lemma StrictlySortedDistinct(s: seq<string>)
    requires StrictlySorted(s)
    ensures forall i, j :: 0 <= i < j < |s| ==> s[i] != s[j]
  {
    forall i, j | 0 <= i < j < |s| ensures s[i] != s[j] {
      LessIrreflexive(s[i]);
    }
  }
}
