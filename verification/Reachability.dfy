// Walks in finite directed graphs: the reference notion that every search of the
// repository is compared with.  A vertex that is not a key of the map has no successors,
// exactly as a missing key of a Go map yields an empty slice.
module Reachability {

  type Digraph<T(==, !new)> = map<T, set<T>>

  ghost predicate Edge<T(!new)>(g: Digraph<T>, u: T, v: T) {
    u in g && v in g[u]
  }

  ghost predicate IsWalk<T(!new)>(g: Digraph<T>, p: seq<T>) {
    p != [] && forall i | 0 <= i < |p| - 1 :: Edge(g, p[i], p[i + 1])
  }

  ghost predicate WalkFromTo<T(!new)>(g: Digraph<T>, p: seq<T>, u: T, v: T) {
    IsWalk(g, p) && p[0] == u && p[|p| - 1] == v
  }

  /** v is u itself or can be reached from u. */
  ghost predicate Reaches<T(!new)>(g: Digraph<T>, u: T, v: T) {
    exists p :: WalkFromTo(g, p, u, v)
  }

  /** v is reached from u in one or more steps; u is on a cycle when it reaches itself so. */
  ghost predicate ReachesPlus<T(!new)>(g: Digraph<T>, u: T, v: T) {
    exists p :: WalkFromTo(g, p, u, v) && |p| >= 2
  }

  /** v can be reached from u in at most n steps. */
  ghost predicate Within<T(!new)>(g: Digraph<T>, u: T, v: T, n: nat) {
    exists p :: WalkFromTo(g, p, u, v) && |p| <= n + 1
  }

  /** Some vertex that start reaches lies on a cycle. */
  ghost predicate CycleReachable<T(!new)>(g: Digraph<T>, start: T) {
    exists c :: Reaches(g, start, c) && ReachesPlus(g, c, c)
  }

  ghost predicate Distinct<T>(s: seq<T>) {
    forall i, j | 0 <= i < j < |s| :: s[i] != s[j]
  }

  lemma {:induction false} DistinctCount<T>(s: seq<T>, x: T)
    requires Distinct(s)
    ensures multiset(s)[x] == if x in s then 1 else 0
  {
    if s != [] {
      var n := |s| - 1;
      assert s == s[..n] + [s[n]];
      DistinctCount(s[..n], x);
    }
  }

  ghost predicate ClosedUnder<T(!new)>(g: Digraph<T>, s: set<T>) {
    forall u, v | u in s && Edge(g, u, v) :: v in s
  }

  /** Every successor of an element of the list stands before it in the list. */
  ghost predicate SuccessorsFirst<T(!new)>(g: Digraph<T>, order: seq<T>) {
    forall i, v | 0 <= i < |order| && Edge(g, order[i], v) :: v in order[..i]
  }

  ghost predicate Inverse<T(!new)>(g: Digraph<T>, h: Digraph<T>) {
    forall u, v :: Edge(g, u, v) <==> Edge(h, v, u)
  }

  lemma ReachesSelf<T(!new)>(g: Digraph<T>, u: T)
    ensures Reaches(g, u, u)
  {
    assert WalkFromTo(g, [u], u, u);
  }

  lemma JoinWalks<T(!new)>(g: Digraph<T>, p: seq<T>, q: seq<T>)
    requires IsWalk(g, p) && IsWalk(g, q) && Edge(g, p[|p| - 1], q[0])
    ensures WalkFromTo(g, p + q, p[0], q[|q| - 1])
  {
  }

  lemma EdgeThenReaches<T(!new)>(g: Digraph<T>, u: T, v: T, w: T)
    requires Edge(g, u, v) && Reaches(g, v, w)
    ensures ReachesPlus(g, u, w) && Reaches(g, u, w)
  {
    var q :| WalkFromTo(g, q, v, w);
    JoinWalks(g, [u], q);
    assert WalkFromTo(g, [u] + q, u, w) && |[u] + q| >= 2;
  }

  lemma ReachesThenEdge<T(!new)>(g: Digraph<T>, u: T, v: T, w: T)
    requires Reaches(g, u, v) && Edge(g, v, w)
    ensures ReachesPlus(g, u, w) && Reaches(g, u, w)
  {
    var p :| WalkFromTo(g, p, u, v);
    JoinWalks(g, p, [w]);
    assert WalkFromTo(g, p + [w], u, w) && |p + [w]| >= 2;
  }

  /** The first step of a nonempty walk. */
  lemma FirstStep<T(!new)>(g: Digraph<T>, u: T, w: T) returns (v: T)
    requires ReachesPlus(g, u, w)
    ensures Edge(g, u, v) && Reaches(g, v, w)
  {
    var p :| WalkFromTo(g, p, u, w) && |p| >= 2;
    v := p[1];
    assert WalkFromTo(g, p[1..], v, w) by {
      forall i | 0 <= i < |p[1..]| - 1 ensures Edge(g, p[1..][i], p[1..][i + 1]) {
        assert Edge(g, p[i + 1], p[i + 1 + 1]);
      }
    }
  }

  /** The last step of a nonempty walk. */
  lemma LastStep<T(!new)>(g: Digraph<T>, u: T, w: T) returns (v: T)
    requires ReachesPlus(g, u, w)
    ensures Reaches(g, u, v) && Edge(g, v, w)
  {
    var p :| WalkFromTo(g, p, u, w) && |p| >= 2;
    var n := |p| - 1;
    v := p[n - 1];
    assert Edge(g, p[n - 1], p[n - 1 + 1]);
    assert WalkFromTo(g, p[..n], u, v);
  }

  lemma PlusThenReaches<T(!new)>(g: Digraph<T>, u: T, v: T, w: T)
    requires ReachesPlus(g, u, v) && Reaches(g, v, w)
    ensures ReachesPlus(g, u, w) && Reaches(g, u, w)
  {
    var x := LastStep(g, u, v);
    var p :| WalkFromTo(g, p, u, x);
    var q :| WalkFromTo(g, q, v, w);
    JoinWalks(g, p, q);
    assert WalkFromTo(g, p + q, u, w) && |p + q| >= 2;
  }

  /** A set closed under successors keeps everything its members reach. */
  lemma ClosedKeepsReachable<T(!new)>(g: Digraph<T>, s: set<T>, u: T, v: T)
    requires ClosedUnder(g, s) && u in s && Reaches(g, u, v)
    ensures v in s
  {
    var p :| WalkFromTo(g, p, u, v);
    for i := 0 to |p| - 1
      invariant p[i] in s
    {
      assert Edge(g, p[i], p[i + 1]);
    }
  }

  /** An order that puts successors first is closed and admits no cycle through its members. */
  lemma SuccessorsFirstReachable<T(!new)>(g: Digraph<T>, order: seq<T>, i: nat, v: T)
    requires SuccessorsFirst(g, order) && i < |order| && Distinct(order)
    requires ReachesPlus(g, order[i], v)
    ensures v in order[..i]
    decreases i
  {
    var w := FirstStep(g, order[i], v);
    var j :| 0 <= j < i && order[j] == w;
    if w != v {
      var p :| WalkFromTo(g, p, w, v);
      SuccessorsFirstReachable(g, order, j, v);
      assert order[..j] <= order[..i];
    }
  }

  lemma SuccessorsFirstAcyclic<T(!new)>(g: Digraph<T>, order: seq<T>, start: T)
    requires SuccessorsFirst(g, order) && Distinct(order) && start in order
    ensures !CycleReachable(g, start)
    ensures forall v | Reaches(g, start, v) :: v in order
  {
    var i :| 0 <= i < |order| && order[i] == start;
    forall v | Reaches(g, start, v) ensures v in order && !ReachesPlus(g, v, v) {
      if v != start {
        var p :| WalkFromTo(g, p, start, v);
        SuccessorsFirstReachable(g, order, i, v);
      }
      var j :| 0 <= j < |order| && order[j] == v;
      if ReachesPlus(g, v, v) {
        SuccessorsFirstReachable(g, order, j, v);
      }
    }
  }

  /** Reversing every edge reverses reachability. */
  lemma InverseReaches<T(!new)>(g: Digraph<T>, h: Digraph<T>, u: T, v: T)
    requires Inverse(g, h)
    ensures Reaches(g, u, v) <==> Reaches(h, v, u)
    ensures ReachesPlus(g, u, v) <==> ReachesPlus(h, v, u)
  {
    InverseReachesOneWay(g, h, u, v);
    InverseReachesOneWay(h, g, v, u);
  }

  lemma InverseReachesOneWay<T(!new)>(g: Digraph<T>, h: Digraph<T>, u: T, v: T)
    requires Inverse(g, h)
    ensures Reaches(g, u, v) ==> Reaches(h, v, u)
    ensures ReachesPlus(g, u, v) ==> ReachesPlus(h, v, u)
  {
    if ReachesPlus(g, u, v) {
      var p :| WalkFromTo(g, p, u, v) && |p| >= 2;
      BackwardsWalk(g, h, p);
      assert WalkFromTo(h, Backwards(p), v, u);
    } else if Reaches(g, u, v) {
      var p :| WalkFromTo(g, p, u, v);
      BackwardsWalk(g, h, p);
    }
  }

  function Backwards<T>(p: seq<T>): (q: seq<T>)
    ensures |q| == |p|
    ensures forall i | 0 <= i < |p| :: q[i] == p[|p| - 1 - i]
  {
    seq(|p|, i requires 0 <= i < |p| => p[|p| - 1 - i])
  }

  lemma BackwardsWalk<T(!new)>(g: Digraph<T>, h: Digraph<T>, p: seq<T>)
    requires Inverse(g, h) && IsWalk(g, p)
    ensures WalkFromTo(h, Backwards(p), p[|p| - 1], p[0])
  {
    var q := Backwards(p);
    forall i | 0 <= i < |q| - 1 ensures Edge(h, q[i], q[i + 1]) {
      var j := |p| - 1 - (i + 1);
      assert Edge(g, p[j], p[j + 1]);
    }
  }

  /** The graph with every edge turned round. */
  ghost function ReverseOf<T(!new)>(g: Digraph<T>): (h: Digraph<T>)
    ensures Inverse(g, h)
  {
    var targets := set u, v | u in g && v in g[u] :: v;
    map v | v in targets :: set u | u in g && v in g[u]
  }

  /** All that is reached from u in one or more steps. */
  ghost function Beyond<T(!new)>(g: Digraph<T>, u: T): (s: set<T>)
    ensures forall v :: v in s <==> ReachesPlus(g, u, v)
  {
    var targets := set x, v | x in g && v in g[x] :: v;
    assert forall v | ReachesPlus(g, u, v) :: v in targets by {
      forall v | ReachesPlus(g, u, v) ensures v in targets {
        var x := LastStep(g, u, v);
      }
    }
    set v | v in targets && ReachesPlus(g, u, v)
  }

  ghost predicate Subgraph<T(!new)>(g: Digraph<T>, h: Digraph<T>) {
    forall u, v | Edge(g, u, v) :: Edge(h, u, v)
  }

  lemma SubgraphReaches<T(!new)>(g: Digraph<T>, h: Digraph<T>, u: T)
    requires Subgraph(g, h)
    ensures Beyond(g, u) <= Beyond(h, u)
  {
    forall v | ReachesPlus(g, u, v) ensures ReachesPlus(h, u, v) {
      var p :| WalkFromTo(g, p, u, v) && |p| >= 2;
      assert WalkFromTo(h, p, u, v);
    }
  }

  /** Every vertex of a closed walk lies on a cycle. */
  lemma OnClosedWalk<T(!new)>(g: Digraph<T>, p: seq<T>, i: nat)
    requires IsWalk(g, p) && |p| >= 2 && p[0] == p[|p| - 1] && i < |p|
    ensures ReachesPlus(g, p[i], p[i])
  {
    var n := |p| - 1;
    if i == 0 || i == n {
      assert WalkFromTo(g, p, p[i], p[i]);
    } else {
      assert WalkFromTo(g, p[..i + 1], p[0], p[i]);
      assert WalkFromTo(g, p[i..], p[i], p[n]) by {
        forall j | 0 <= j < |p[i..]| - 1 ensures Edge(g, p[i..][j], p[i..][j + 1]) {
          assert Edge(g, p[i + j], p[i + j + 1]);
        }
      }
      assert |p[i..]| >= 2;
      PlusThenReaches(g, p[i], p[n], p[i]);
    }
  }

  lemma WithinStep<T(!new)>(g: Digraph<T>, u: T, v: T, w: T, n: nat)
    requires Within(g, u, v, n) && Edge(g, v, w)
    ensures Within(g, u, w, n + 1)
  {
    var p :| WalkFromTo(g, p, u, v) && |p| <= n + 1;
    JoinWalks(g, p, [w]);
    assert WalkFromTo(g, p + [w], u, w) && |p + [w]| <= n + 2;
  }

  /** The vertices reached from start are the least set that holds start and is closed. */
  lemma ReachableSet<T(!new)>(g: Digraph<T>, s: set<T>, start: T)
    requires start in s && ClosedUnder(g, s)
    requires forall k | k in s :: Reaches(g, start, k)
    ensures forall k :: k in s <==> Reaches(g, start, k)
  {
    forall k | Reaches(g, start, k) ensures k in s {
      ClosedKeepsReachable(g, s, start, k);
    }
  }
}
