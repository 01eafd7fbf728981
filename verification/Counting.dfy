// Counting the members of finite sets.
module Counting {
  import opened Reachability

  /** Distinct members have distinct images under a one-to-one function. */
  lemma {:induction false} ImageSize<S(!new), T(!new)>(s: set<S>, f: S -> T, image: set<T>)
    requires forall x, y | x in s && y in s && f(x) == f(y) :: x == y
    requires forall t :: t in image <==> exists x :: x in s && f(x) == t
    ensures |image| == |s|
    decreases s
  {
    if s == {} {
      assert image == {};
    } else {
      var x :| x in s;
      var fewer := image - {f(x)};
      forall t ensures t in fewer <==> exists y :: y in s - {x} && f(y) == t {
        if t in fewer {
          var y :| y in s && f(y) == t;
          assert y in s - {x};
        }
      }
      ImageSize(s - {x}, f, fewer);
      assert f(x) in image;
    }
  }

  lemma DisjointSize<T>(a: set<T>, b: set<T>)
    requires a !! b
    ensures |a + b| == |a| + |b|
  {
  }

  lemma UnionSize<T(!new)>(all: set<T>, a: set<T>, b: set<T>)
    requires a !! b && forall x :: x in all <==> x in a || x in b
    ensures |all| == |a| + |b|
  {
    assert all == a + b;
  }

  lemma AtMostOnce<T>(s: seq<T>, x: T)
    requires |s| <= 1
    ensures multiset(s)[x] == if x in s then 1 else 0
  {
  }

  /** Of distinct members, as many have the image u as there are members with that image. */
  lemma {:induction false} ImagesCount<T(!new), U>(xs: seq<T>, ys: seq<U>, f: T -> U, u: U, all: set<T>)
    requires Distinct(xs) && |ys| == |xs| && forall i | 0 <= i < |xs| :: ys[i] == f(xs[i])
    requires forall x :: x in all <==> x in xs && f(x) == u
    ensures multiset(ys)[u] == |all|
    decreases |xs|
  {
    if xs == [] {
      assert all == {};
    } else {
      var n := |xs| - 1;
      LastApart(xs);
      LastApart(ys);
      DistinctLast(xs);
      hide Distinct;
      ImagesCount(xs[..n], ys[..n], f, u, all - {xs[n]});
    }
  }

  lemma LastApart<T>(s: seq<T>)
    requires s != []
    ensures var n := |s| - 1; multiset(s) == multiset(s[..n]) + multiset{s[n]}
    ensures var n := |s| - 1; forall x :: x in s <==> x in s[..n] || x == s[n]
  {
    assert s == s[..|s| - 1] + [s[|s| - 1]];
  }

  lemma DistinctLast<T>(s: seq<T>)
    requires Distinct(s) && s != []
    ensures var n := |s| - 1; Distinct(s[..n]) && s[n] !in s[..n]
  {
  }

  /** One more position, counted if p holds there. */
  lemma PositionsMore<T>(s: seq<T>, p: T -> bool, before: set<int>, all: set<int>)
    requires s != [] && forall i :: i in before <==> 0 <= i < |s| - 1 && p(s[i])
    requires forall i :: i in all <==> 0 <= i < |s| && p(s[i])
    ensures |all| == |before| + if p(s[|s| - 1]) then 1 else 0
  {
    var n := |s| - 1;
    var added := if p(s[n]) then {n} else {};
    forall i: int ensures i in all <==> i in before + added {
      assert i in all <==> 0 <= i < |s| && p(s[i]);
      assert i in before <==> 0 <= i < n && p(s[i]);
    }
    assert all == before + added;
    DisjointSize(before, added);
  }
}
