/** Strictly increasing sequences of numbers. */
module Sorting {

  predicate Increasing(s: seq<nat>)
  {
    forall i, j :: 0 <= i < j < |s| ==> s[i] < s[j]
  }

  ghost predicate Lists(s: seq<nat>, elements: set<nat>)
  {
    && Increasing(s)
    && (forall x :: x in s <==> x in elements)
  }

  lemma DropLast(a: seq<nat>, elements: set<nat>)
    requires Lists(a, elements) && a != []
    ensures Lists(a[..|a| - 1], elements - {a[|a| - 1]})
  {
    var m := |a| - 1;
    forall x
      ensures x in a[..m] <==> x in elements - {a[m]}
    {
      if x in elements - {a[m]} {
        var i :| 0 <= i < |a| && a[i] == x;
        assert a[..m][i] == x;
      }
      if x in a[..m] {
        var i :| 0 <= i < m && a[i] == x;
        assert a[i] < a[m];
      }
    }
  }

  lemma LastIsGreatest(a: seq<nat>, elements: set<nat>, x: nat)
    requires Lists(a, elements) && x in elements
    ensures a != [] && x <= a[|a| - 1] && a[|a| - 1] in elements
  {
    var i :| 0 <= i < |a| && a[i] == x;
    assert i == |a| - 1 || a[i] < a[|a| - 1];
  }

  /** A set has only one increasing listing, so the order in which its elements were met cannot matter. */
  lemma {:induction false} ListingUnique(a: seq<nat>, b: seq<nat>, elements: set<nat>)
    requires Lists(a, elements) && Lists(b, elements)
    ensures a == b
  {
    if x: nat :| x in elements {
      LastIsGreatest(a, elements, x);
      LastIsGreatest(b, elements, x);
      var m, n := |a| - 1, |b| - 1;
      LastIsGreatest(a, elements, b[n]);
      LastIsGreatest(b, elements, a[m]);
      DropLast(a, elements);
      DropLast(b, elements);
      ListingUnique(a[..m], b[..n], elements - {a[m]});
      assert a == a[..m] + [a[m]] && b == b[..n] + [b[n]];
    } else {
      NothingListed(a, elements);
      NothingListed(b, elements);
    }
  }

  lemma NothingListed(a: seq<nat>, elements: set<nat>)
    requires Lists(a, elements)
    ensures a != [] ==> elements != {}
  {
    if a != [] {
      assert a[0] in elements;
    }
  }

  lemma {:induction false} HasGreatest(s: set<nat>)
    requires s != {}
    ensures exists x :: x in s && forall y :: y in s ==> y <= x
  {
    var x :| x in s;
    var rest := s - {x};
    var g := x;
    if rest != {} {
      HasGreatest(rest);
      var m :| m in rest && forall y :: y in rest ==> y <= m;
      g := if m < x then x else m;
    }
    forall y | y in s
      ensures y <= g
    {
      assert y == x || y in rest;
    }
    assert g in s;
  }

  lemma Appending(s: seq<nat>, elements: set<nat>, x: nat)
    requires Lists(s, elements) && forall y :: y in elements ==> y < x
    ensures Lists(s + [x], elements + {x})
  {
    forall i | 0 <= i < |s|
      ensures s[i] < x
    {
      assert s[i] in s;
    }
  }

  ghost function Ascending(s: set<nat>): (r: seq<nat>)
    ensures Lists(r, s)
  {
    if s == {} then [] else
      HasGreatest(s);
      var x :| x in s && forall y :: y in s ==> y <= x;
      Appending(Ascending(s - {x}), s - {x}, x);
      assert s - {x} + {x} == s;
      Ascending(s - {x}) + [x]
  }

  /** The increasing listing of a set. */
  method Sort(elements: set<nat>) returns (sorted: seq<nat>)
    ensures Lists(sorted, elements)
    decreases |elements|
  {
    if elements == {} {
      return [];
    }
    HasGreatest(elements);
    var x :| x in elements && forall y :: y in elements ==> y <= x;
    var front := Sort(elements - {x});
    Appending(front, elements - {x}, x);
    assert elements - {x} + {x} == elements;
    sorted := front + [x];
  }
}
