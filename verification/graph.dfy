/** Finite directed graphs over references: one-step successors, the
    reachability closure, and the cycles of a graph. */
module Graph {
  import opened Refs

  type Edges = set<(Ref, Ref)>

  /** Every reference that is an endpoint of some edge. */
  function Nodes(e: Edges): set<Ref> {
    (set x | x in e :: x.0) + (set x | x in e :: x.1)
  }

  /** The references one edge away from some member of `s`. */
  function Succ(e: Edges, s: set<Ref>): (r: set<Ref>)
    ensures r <= Nodes(e)
  {
    set x | x in e && x.0 in s :: x.1
  }

  /** `p` walks along edges of `e`, one step per adjacent pair. */
  ghost predicate IsPath(e: Edges, p: seq<Ref>) {
    |p| >= 1 && forall i :: 0 <= i < |p| - 1 ==> (p[i], p[i + 1]) in e
  }

  /** `b` can be reached from some member of `s` in zero or more steps. */
  ghost predicate ReachesFrom(e: Edges, s: set<Ref>, b: Ref) {
    exists p :: IsPath(e, p) && p[0] in s && p[|p| - 1] == b
  }

  /** No walk of one or more steps returns to where it started. */
  ghost predicate Acyclic(e: Edges) {
    forall p :: IsPath(e, p) && |p| >= 2 ==> p[0] != p[|p| - 1]
  }

  /** `a` lies on a walk of one or more steps back to itself. */
  ghost predicate OnCycle(e: Edges, a: Ref) {
    exists p :: IsPath(e, p) && |p| >= 2 && p[0] == a && p[|p| - 1] == a
  }

  /** The least superset of `s` closed under successors, computed by adding
      successors until nothing new appears. */
  function Closure(e: Edges, s: set<Ref>): (c: set<Ref>)
    ensures s <= c
    ensures Succ(e, c) <= c
    ensures c <= s + Nodes(e)
    decreases |Nodes(e) - s|
  {
    var next := Succ(e, s);
    if next <= s then s
    else
      var x :| x in next && x !in s;
      ShrinksBy(Nodes(e), s, s + next, x);
      Closure(e, s + next)
  }

  /** Adding a node of `u` to the visited set shrinks what is left of `u`. */
  lemma ShrinksBy(u: set<Ref>, s: set<Ref>, t: set<Ref>, x: Ref)
    requires s <= t && x in u && x in t && x !in s
    ensures |u - t| < |u - s|
  {
    var small, big := u - t, u - s;
    assert big == small + (big - small);
    assert x in big - small;
  }

  /** Whether `a` lies on a cycle: `a` is reachable from its own successors. */
  predicate IsOnCycle(e: Edges, a: Ref) {
    a in Closure(e, Succ(e, {a}))
  }

  /** The strongly connected component of `a`: everything `a` reaches in one
      or more steps that reaches `a` back. */
  function Component(e: Edges, a: Ref): set<Ref> {
    set b | b in Closure(e, Succ(e, {a})) && a in Closure(e, Succ(e, {b}))
  }

  /** The cycles of a graph, each reported as the component it lies in. */
  function Cycles(e: Edges): set<set<Ref>> {
    set a | a in Nodes(e) && IsOnCycle(e, a) :: Component(e, a)
  }

  /** Every member of the closure is reachable from the start set. */
  lemma {:induction false} ClosureSound(e: Edges, s: set<Ref>, b: Ref)
    requires b in Closure(e, s)
    ensures ReachesFrom(e, s, b)
    decreases |Nodes(e) - s|
  {
    var next := Succ(e, s);
    if next <= s {
      assert IsPath(e, [b]);
    } else {
      var x :| x in next && x !in s;
      ShrinksBy(Nodes(e), s, s + next, x);
      ClosureSound(e, s + next, b);
      var p :| IsPath(e, p) && p[0] in s + next && p[|p| - 1] == b;
      if p[0] !in s {
        var y :| y in e && y.0 in s && y.1 == p[0];
        var q := [y.0] + p;
        assert IsPath(e, q) by {
          forall i | 0 <= i < |q| - 1
            ensures (q[i], q[i + 1]) in e
          {
            if i > 0 { assert (p[i - 1], p[i]) in e; }
          }
        }
        assert q[|q| - 1] == b;
      }
    }
  }

  /** A set that holds `s` and is closed under successors holds everything
      reachable from `s`. */
  lemma ClosedHoldsReachable(e: Edges, s: set<Ref>, c: set<Ref>, b: Ref)
    requires s <= c && Succ(e, c) <= c
    requires ReachesFrom(e, s, b)
    ensures b in c
  {
    var p :| IsPath(e, p) && p[0] in s && p[|p| - 1] == b;
    var i := 0;
    while i < |p| - 1
      invariant 0 <= i < |p|
      invariant p[i] in c
    {
      assert (p[i], p[i + 1]) in e;
      assert p[i + 1] in Succ(e, c);
      i := i + 1;
    }
  }

  /** The closure is exactly the set of references reachable from `s`. */
  lemma ClosureIsReachable(e: Edges, s: set<Ref>, b: Ref)
    ensures b in Closure(e, s) <==> ReachesFrom(e, s, b)
  {
    if b in Closure(e, s) {
      ClosureSound(e, s, b);
    } else if ReachesFrom(e, s, b) {
      ClosedHoldsReachable(e, s, Closure(e, s), b);
    }
  }

  /** The closure is the least superset of `s` closed under successors. */
  lemma ClosureLeast(e: Edges, s: set<Ref>, c: set<Ref>)
    requires s <= c && Succ(e, c) <= c
    ensures Closure(e, s) <= c
  {
    forall b | b in Closure(e, s)
      ensures b in c
    {
      ClosureSound(e, s, b);
      ClosedHoldsReachable(e, s, c, b);
    }
  }

  /** Starting inside a closure never leaves it. */
  lemma ClosureWithin(e: Edges, s: set<Ref>, t: set<Ref>)
    requires t <= Closure(e, s)
    ensures Closure(e, t) <= Closure(e, s)
  {
    ClosureLeast(e, t, Closure(e, s));
  }

  /** The computed cycle test agrees with the walk-based definition. */
  lemma IsOnCycleIff(e: Edges, a: Ref)
    ensures IsOnCycle(e, a) <==> OnCycle(e, a)
  {
    var s := Succ(e, {a});
    if IsOnCycle(e, a) {
      ClosureSound(e, s, a);
      var p :| IsPath(e, p) && p[0] in s && p[|p| - 1] == a;
      var q := [a] + p;
      assert IsPath(e, q) by {
        forall i | 0 <= i < |q| - 1
          ensures (q[i], q[i + 1]) in e
        {
          if i > 0 { assert (p[i - 1], p[i]) in e; }
        }
      }
      assert q[|q| - 1] == a;
    }
    if OnCycle(e, a) {
      var q :| IsPath(e, q) && |q| >= 2 && q[0] == a && q[|q| - 1] == a;
      var p := q[1..];
      assert (q[0], q[1]) in e;
      assert p[0] in s;
      assert IsPath(e, p) by {
        forall i | 0 <= i < |p| - 1
          ensures (p[i], p[i + 1]) in e
        {
          assert (q[i + 1], q[i + 2]) in e;
        }
      }
      ClosedHoldsReachable(e, s, Closure(e, s), a);
    }
  }

  /** A graph reports no cycles exactly when it is acyclic. */
  lemma CyclesEmptyIff(e: Edges)
    ensures Cycles(e) == {} <==> Acyclic(e)
  {
    if Cycles(e) != {} {
      var c :| c in Cycles(e);
      var a :| a in Nodes(e) && IsOnCycle(e, a) && c == Component(e, a);
      IsOnCycleIff(e, a);
    }
    if !Acyclic(e) {
      var p :| IsPath(e, p) && |p| >= 2 && p[0] == p[|p| - 1];
      var a := p[0];
      assert OnCycle(e, a);
      IsOnCycleIff(e, a);
      assert (p[0], p[1]) in e;
      assert a in Nodes(e);
      assert Component(e, a) in Cycles(e);
    }
  }

  /** A reported cycle is non-empty, and all its members lie on cycles. */
  lemma CycleMembers(e: Edges, c: set<Ref>, b: Ref)
    requires c in Cycles(e)
    ensures c != {}
    ensures b in c ==> OnCycle(e, b)
  {
    var a :| a in Nodes(e) && IsOnCycle(e, a) && c == Component(e, a);
    assert a in c;
    if b in c {
      assert b in Closure(e, Succ(e, {a})) && a in Closure(e, Succ(e, {b}));
      ClosureSound(e, Succ(e, {b}), a);
      ClosureSound(e, Succ(e, {a}), b);
      var p :| IsPath(e, p) && p[0] in Succ(e, {b}) && p[|p| - 1] == a;
      var q :| IsPath(e, q) && q[0] in Succ(e, {a}) && q[|q| - 1] == b;
      JoinWalks(e, b, p, q);
    }
  }

  /** A step out of `b`, a walk to some `a`, a step out of `a` and a walk
      back to `b` make a closed walk through `b`. */
  lemma JoinWalks(e: Edges, b: Ref, p: seq<Ref>, q: seq<Ref>)
    requires IsPath(e, p) && p[0] in Succ(e, {b})
    requires IsPath(e, q) && q[0] in Succ(e, {p[|p| - 1]}) && q[|q| - 1] == b
    ensures OnCycle(e, b)
  {
    var w := [b] + p + q;
    forall i | 0 <= i < |w| - 1
      ensures (w[i], w[i + 1]) in e
    {
      if i == 0 {
      } else if i < |p| {
        assert (p[i - 1], p[i]) in e;
      } else if i == |p| {
        assert w[i] == p[|p| - 1] && w[i + 1] == q[0];
      } else {
        assert (q[i - 1 - |p|], q[i - |p|]) in e;
      }
    }
    assert IsPath(e, w) && w[0] == b && w[|w| - 1] == b;
  }


  /** A graph whose edges all climb a ranking has no cycle. */
  lemma RankedIsAcyclic(e: Edges, rank: Ref -> int)
    requires forall x :: x in e ==> rank(x.0) < rank(x.1)
    ensures Acyclic(e)
  {
    forall p | IsPath(e, p) && |p| >= 2
      ensures p[0] != p[|p| - 1]
    {
      var i := 1;
      assert (p[0], p[1]) in e;
      while i < |p| - 1
        invariant 1 <= i < |p|
        invariant rank(p[0]) < rank(p[i])
      {
        assert (p[i], p[i + 1]) in e;
        i := i + 1;
      }
    }
  }

  /** Along a walk of a graph whose edges never descend a ranking, the
      ranking never descends either. */
  lemma {:induction false} RankAlong(e: Edges, rank: Ref -> int, p: seq<Ref>, i: int, j: int)
    requires forall x :: x in e ==> rank(x.0) <= rank(x.1)
    requires IsPath(e, p) && 0 <= i <= j < |p|
    ensures rank(p[i]) <= rank(p[j])
    decreases j - i
  {
    if i < j {
      assert (p[i], p[i + 1]) in e;
      RankAlong(e, rank, p, i + 1, j);
    }
  }

  /** When no edge descends a ranking and only edges leaving `c` keep it
      level, every node on a cycle lies in `c`. */
  lemma LevelCycleWithin(e: Edges, rank: Ref -> int, c: set<Ref>, a: Ref)
    requires forall x :: x in e ==> rank(x.0) <= rank(x.1)
    requires forall x :: x in e && rank(x.0) == rank(x.1) ==> x.0 in c
    requires OnCycle(e, a)
    ensures a in c
  {
    var p :| IsPath(e, p) && |p| >= 2 && p[0] == a && p[|p| - 1] == a;
    assert (p[0], p[1]) in e;
    RankAlong(e, rank, p, 1, |p| - 1);
  }

  /** The end of a walk of one or more steps is in the closure of the
      successors of its start. */
  lemma WalkReaches(e: Edges, q: seq<Ref>)
    requires IsPath(e, q) && |q| >= 2
    ensures q[|q| - 1] in Closure(e, Succ(e, {q[0]}))
  {
    var p := q[1..];
    assert (q[0], q[1]) in e;
    assert IsPath(e, p) by {
      forall i | 0 <= i < |p| - 1
        ensures (p[i], p[i + 1]) in e
      {
        assert (q[i + 1], q[i + 2]) in e;
      }
    }
    ClosureIsReachable(e, Succ(e, {q[0]}), q[|q| - 1]);
  }

  /** A closed walk leads from any of its nodes to any of them in one or
      more steps. */
  lemma RingWalk(e: Edges, ring: seq<Ref>, i: int, j: int) returns (q: seq<Ref>)
    requires IsPath(e, ring) && |ring| >= 2 && ring[0] == ring[|ring| - 1]
    requires 0 <= i < |ring| - 1 && 0 <= j < |ring| - 1
    ensures IsPath(e, q) && |q| >= 2 && q[0] == ring[i] && q[|q| - 1] == ring[j]
  {
    if i < j {
      q := ring[i..j + 1];
      forall k | 0 <= k < |q| - 1
        ensures (q[k], q[k + 1]) in e
      {
        assert (ring[i + k], ring[i + k + 1]) in e;
      }
    } else {
      var n := |ring| - i;
      q := ring[i..] + ring[1..j + 1];
      forall k | 0 <= k < |q| - 1
        ensures (q[k], q[k + 1]) in e
      {
        if k < n - 1 {
          assert (ring[i + k], ring[i + k + 1]) in e;
        } else {
          var m := k - n + 1;
          assert q[k] == ring[m] && q[k + 1] == ring[m + 1];
          assert (ring[m], ring[m + 1]) in e;
        }
      }
    }
  }

  /** Any two nodes of a closed walk lie in one strongly connected
      component. */
  lemma RingComponent(e: Edges, ring: seq<Ref>, a: Ref, b: Ref)
    requires IsPath(e, ring) && |ring| >= 2 && ring[0] == ring[|ring| - 1]
    requires a in Elems(ring) && b in Elems(ring)
    ensures b in Component(e, a)
  {
    var i :| 0 <= i < |ring| && ring[i] == a;
    var j :| 0 <= j < |ring| && ring[j] == b;
    if i == |ring| - 1 { i := 0; }
    if j == |ring| - 1 { j := 0; }
    var there := RingWalk(e, ring, i, j);
    var back := RingWalk(e, ring, j, i);
    WalkReaches(e, there);
    WalkReaches(e, back);
  }

  /** The component of a node on a closed walk, when a ranking that no edge
      descends is kept level only by edges leaving the walk's nodes, is
      exactly the walk's nodes. */
  lemma RingIsComponent(e: Edges, rank: Ref -> int, ring: seq<Ref>, a: Ref)
    requires IsPath(e, ring) && |ring| >= 2 && ring[0] == ring[|ring| - 1]
    requires forall x :: x in e ==> rank(x.0) <= rank(x.1)
    requires forall x :: x in e && rank(x.0) == rank(x.1) ==> x.0 in Elems(ring)
    requires a in Nodes(e) && IsOnCycle(e, a)
    ensures Component(e, a) == Elems(ring)
  {
    var c := Elems(ring);
    IsOnCycleIff(e, a);
    LevelCycleWithin(e, rank, c, a);
    assert Component(e, a) in Cycles(e);
    forall b | b in Component(e, a)
      ensures b in c
    {
      CycleMembers(e, Component(e, a), b);
      LevelCycleWithin(e, rank, c, b);
    }
    forall b | b in c
      ensures b in Component(e, a)
    {
      RingComponent(e, ring, a, b);
    }
  }

  /** A closed walk whose nodes are the only ones a never-descending ranking
      is kept level from is the one cycle the graph reports. */
  lemma OneCycle(e: Edges, rank: Ref -> int, ring: seq<Ref>)
    requires IsPath(e, ring) && |ring| >= 2 && ring[0] == ring[|ring| - 1]
    requires forall x :: x in e ==> rank(x.0) <= rank(x.1)
    requires forall x :: x in e && rank(x.0) == rank(x.1) ==> x.0 in Elems(ring)
    ensures Cycles(e) == {Elems(ring)}
  {
    var a := ring[0];
    assert OnCycle(e, a);
    IsOnCycleIff(e, a);
    assert (ring[0], ring[1]) in e;
    RingIsComponent(e, rank, ring, a);
    forall c | c in Cycles(e)
      ensures c == Elems(ring)
    {
      var b :| b in Nodes(e) && IsOnCycle(e, b) && c == Component(e, b);
      RingIsComponent(e, rank, ring, b);
    }
  }
}
