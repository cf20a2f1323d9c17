/** Least elements and sizes of finite sets of page numbers. */
module Sets {

  ghost predicate IsLeast(x: nat, s: set<nat>) {
    x in s && forall y :: y in s ==> x <= y
  }

  lemma {:induction false} LeastExists(s: set<nat>)
    requires s != {}
    ensures exists x :: IsLeast(x, s)
  {
    var y :| y in s;
    if s != {y} {
      LeastExists(s - {y});
      var x :| IsLeast(x, s - {y});
      assert forall z :: z in s ==> z == y || z in s - {y};
      assert IsLeast(if x < y then x else y, s);
    } else {
      assert IsLeast(y, s);
    }
  }

  ghost function Least(s: set<nat>): (x: nat)
    requires s != {}
    ensures IsLeast(x, s)
  {
    LeastExists(s);
    var x :| IsLeast(x, s);
    x
  }

  lemma {:induction false} SubsetSize<T>(s: set<T>, t: set<T>)
    requires s <= t
    ensures |s| <= |t| && |t - s| == |t| - |s|
  {
    if s != {} {
      var x :| x in s;
      SubsetSize(s - {x}, t - {x});
      assert (t - {x}) - (s - {x}) == t - s;
    } else {
      assert t - s == t;
    }
  }

  /** A set of numbers below `n` has at most `n` elements. */
  lemma {:induction false} BoundedSize(s: set<nat>, n: nat)
    requires forall x :: x in s ==> x < n
    ensures |s| <= n
    decreases n
  {
    if n == 0 {
      assert s == {};
    } else {
      BoundedSize(s - {n - 1}, n - 1);
      SubsetSize(s - {n - 1}, s);
      assert s - (s - {n - 1}) <= {n - 1};
      SubsetSize(s - (s - {n - 1}), {n - 1});
    }
  }

  ghost function Elements(xs: seq<nat>): set<nat> {
    set i | 0 <= i < |xs| :: xs[i]
  }

  lemma {:induction false} ElementsSize(xs: seq<nat>)
    requires forall i, j :: 0 <= i < j < |xs| ==> xs[i] != xs[j]
    ensures |Elements(xs)| == |xs|
  {
    if xs == [] {
      assert Elements(xs) == {};
    } else {
      var rest, x := xs[..|xs| - 1], xs[|xs| - 1];
      ElementsSize(rest);
      assert Elements(xs) == Elements(rest) + {x};
    }
  }

  /** Different numbers below `n` are at most `n`. */
  lemma Pigeonhole(xs: seq<nat>, n: nat)
    requires forall i, j :: 0 <= i < j < |xs| ==> xs[i] != xs[j]
    requires forall i :: 0 <= i < |xs| ==> xs[i] < n
    ensures |xs| <= n
  {
    ElementsSize(xs);
    BoundedSize(Elements(xs), n);
  }
}
