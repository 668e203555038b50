/** Ascending listing of a finite set of integers, as `sorted(list(s))` produces it. */
module SortedSets {

  predicate StrictlyIncreasing(s: seq<int>) {
    forall i, j :: 0 <= i < j < |s| ==> s[i] < s[j]
  }

  lemma HasElement(s: set<int>)
    requires s != {}
    ensures exists x :: x in s
  {
    if forall x :: x !in s {
      assert false;
    }
  }

  lemma {:induction false} LeastElement(s: set<int>) returns (m: int)
    requires s != {}
    ensures m in s && forall y :: y in s ==> m <= y
    decreases |s|
  {
    HasElement(s);
    var x :| x in s;
    var rest := s - {x};
    if rest == {} {
      m := x;
      forall y | y in s ensures m <= y {
        assert y !in rest;
      }
    } else {
      var least := LeastElement(rest);
      m := if x < least then x else least;
      forall y | y in s ensures m <= y {
        assert y == x || y in rest;
      }
    }
  }

  lemma HasMinimum(s: set<int>)
    requires s != {}
    ensures exists m :: m in s && forall y :: y in s ==> m <= y
  {
    var m := LeastElement(s);
  }

  /** The least element of a non-empty set. */
  function Minimum(s: set<int>): (m: int)
    requires s != {}
    ensures m in s
    ensures forall y :: y in s ==> m <= y
  {
    HasMinimum(s);
    var m :| m in s && (forall y :: y in s ==> m <= y);
    m
  }

  /**
   * The elements of `s` in ascending order: strictly increasing (so without
   * duplicates), with exactly the elements of `s`.
   */
  function SortedElements(s: set<int>): (r: seq<int>)
    ensures |r| == |s|
    ensures StrictlyIncreasing(r)
    ensures forall x :: x in r <==> x in s
    decreases |s|
  {
    if s == {} then []
    else
      var m := Minimum(s);
      [m] + SortedElements(s - {m})
  }

  /**
   * Any strictly increasing listing of the elements of `s` is `SortedElements(s)`:
   * the ascending order of a set does not depend on how it is built.
   */
  lemma {:induction false} SortedElementsUnique(s: set<int>, r: seq<int>)
    requires StrictlyIncreasing(r)
    requires forall x :: x in r <==> x in s
    ensures r == SortedElements(s)
    decreases |r|
  {
    if r == [] {
      forall x ensures x !in s {
        assert x !in r;
      }
      assert s == {};
    } else {
      HeadIsMinimum(s, r);
      var rest := s - {r[0]};
      TailListsRest(s, r);
      SortedElementsUnique(rest, r[1..]);
      calc {
        SortedElements(s);
        [Minimum(s)] + SortedElements(s - {Minimum(s)});
        [r[0]] + r[1..];
        r;
      }
    }
  }

  lemma HeadIsMinimum(s: set<int>, r: seq<int>)
    requires StrictlyIncreasing(r) && r != []
    requires forall x :: x in r <==> x in s
    ensures s != {} && r[0] == Minimum(s)
  {
    assert r[0] in r;
    assert r[0] in s;
    var m := Minimum(s);
    assert m in r;
    var k :| 0 <= k < |r| && r[k] == m;
    if k != 0 {
      assert false;
    }
  }

  lemma TailListsRest(s: set<int>, r: seq<int>)
    requires StrictlyIncreasing(r) && r != []
    requires forall x :: x in r <==> x in s
    ensures StrictlyIncreasing(r[1..])
    ensures forall x :: x in r[1..] <==> x in s - {r[0]}
  {
    forall x ensures x in r[1..] <==> x in s - {r[0]} {
      if x in r[1..] {
        var k :| 1 <= k < |r| && r[k] == x;
        assert r[0] < r[k];
      }
      if x in s - {r[0]} {
        assert x in r;
        var k :| 0 <= k < |r| && r[k] == x;
        assert k != 0;
        assert r[1..][k - 1] == x;
      }
    }
  }
}
