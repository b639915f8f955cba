/** What `hasLink` computes, stated without reference to how it computes
    it: the shape of its catalog queries, the groups it fetches, its answer
    and its warnings, and that it depends only on the principal's ancestors. */
module RoleManagerProofs {
  import opened Wrappers
  import opened Refs
  import opened Catalog
  import opened CycleTracker
  import opened RoleManager
  import Graph

  /** Every group a sequence of round trips asked the parents of. */
  function Queried(rounds: seq<Round>): set<Ref> {
    if rounds == [] then {}
    else (if rounds[0].ParentRound? then Elems(rounds[0].frontier) else {}) + Queried(rounds[1..])
  }

  /** The frontier that follows a sequence of round trips: the groups in the
      last answer that have not been asked about yet. */
  function NextFrontier(rounds: seq<Round>): seq<Ref>
    requires |rounds| >= 1
  {
    NewRefs(rounds[|rounds| - 1].response, Queried(rounds))
  }

  /** Round `i` is one parent query over exactly the frontier left by the
      rounds before it, answered by the directory. */
  ghost predicate ParentStep(d: Directory, rounds: seq<Round>, i: int)
    requires 1 <= i < |rounds|
  {
    && rounds[i].ParentRound?
    && rounds[i].frontier != []
    && rounds[i].frontier == NextFrontier(rounds[..i])
    && rounds[i].response == ParentOf(d, rounds[i].frontier)
  }

  /** The whole conversation with the catalog for one resolution: a member
      query for the principal, then parent queries frontier by frontier,
      stopping exactly when no unseen group is left. */
  ghost predicate IsTrace(d: Directory, principal: string, rounds: seq<Round>) {
    && |rounds| >= 1
    && rounds[0] == MemberRound(principal, MemberOf(d, principal))
    && (forall i :: 1 <= i < |rounds| ==> ParentStep(d, rounds, i))
    && NextFrontier(rounds) == []
  }

  /** The principal's ancestors: every group reachable from one of its own
      groups by following the directory's parent answers. */
  ghost predicate IsAncestor(d: Directory, principal: string, r: Ref) {
    Graph.ReachesFrom(ParentEdges(d), Ids(MemberOf(d, principal)), r)
  }

  /** Every record the directory holds for the principal's ancestors: its own
      groups and the parents reported for each ancestor. */
  ghost function AncestorRecords(d: Directory, principal: string): set<GroupRec> {
    RecSet(MemberOf(d, principal))
    + (set r, g | r in d.parents && IsAncestor(d, principal, r) && g in d.parents[r] :: g)
  }

  lemma {:induction false} QueriedAppend(a: seq<Round>, b: seq<Round>)
    ensures Queried(a + b) == Queried(a) + Queried(b)
  {
    if a != [] {
      assert (a + b)[0] == a[0];
      assert (a + b)[1..] == a[1..] + b;
      QueriedAppend(a[1..], b);
    } else {
      assert a + b == b;
    }
  }

  lemma {:induction false} FetchedAppend(a: seq<Round>, b: seq<Round>)
    ensures Fetched(a + b) == Fetched(a) + Fetched(b)
  {
    if a != [] {
      assert (a + b)[0] == a[0];
      assert (a + b)[1..] == a[1..] + b;
      FetchedAppend(a[1..], b);
    } else {
      assert a + b == b;
    }
  }

  lemma Regroup(prefix: seq<Round>, r0: Round, rest: seq<Round>)
    ensures prefix + ([r0] + rest) == (prefix + [r0]) + rest
    ensures (prefix + ([r0] + rest))[..|prefix|] == prefix
    ensures (prefix + ([r0] + rest))[|prefix|] == r0
  {
  }

  lemma IdsAppend(a: seq<GroupRec>, b: seq<GroupRec>)
    ensures Ids(a + b) == Ids(a) + Ids(b)
    ensures RecSet(a + b) == RecSet(a) + RecSet(b)
  {
  }

  /** Each step of the climb is the parent query over the frontier left by
      the steps before it, and the climb stops when no frontier is left. */
  lemma {:induction false} ExploreTrace(d: Directory, prefix: seq<Round>)
    requires |prefix| >= 1
    requires Ids(prefix[|prefix| - 1].response) <= Universe(d)
    ensures Elems(NextFrontier(prefix)) <= Universe(d)
    ensures var all := prefix + Explore(d, NextFrontier(prefix), Queried(prefix));
      && (forall i :: |prefix| <= i < |all| ==> ParentStep(d, all, i))
      && NextFrontier(all) == []
    decreases |Universe(d) - Queried(prefix)|, 1
  {
    var fr := NextFrontier(prefix);
    assert Elems(fr) <= Universe(d);
    if fr != [] {
      ExploreTraceStep(d, prefix);
    } else {
      assert Explore(d, fr, Queried(prefix)) == [];
      assert prefix + [] == prefix;
    }
  }

  lemma {:induction false} ExploreTraceStep(d: Directory, prefix: seq<Round>)
    requires |prefix| >= 1
    requires Ids(prefix[|prefix| - 1].response) <= Universe(d)
    requires NextFrontier(prefix) != []
    ensures Elems(NextFrontier(prefix)) <= Universe(d)
    ensures var all := prefix + Explore(d, NextFrontier(prefix), Queried(prefix));
      && (forall i :: |prefix| <= i < |all| ==> ParentStep(d, all, i))
      && NextFrontier(all) == []
    decreases |Universe(d) - Queried(prefix)|, 0
  {
    var fr := NextFrontier(prefix);
    var rs := Explore(d, fr, Queried(prefix));
    var all := prefix + rs;
    var r0 := ParentRound(fr, ParentOf(d, fr));
    var next := prefix + [r0];
    QueriedAppend(prefix, [r0]);
    assert Queried([r0]) == Elems(fr);
    var seen := Queried(next);
    assert seen == Queried(prefix) + Elems(fr);
    AnswersInUniverse(d, "", fr);
    assert fr[0] in Elems(fr);
    Graph.ShrinksBy(Universe(d), Queried(prefix), seen, fr[0]);
    ExploreTrace(d, next);
    var rest := Explore(d, NextFrontier(next), seen);
    assert rs == [r0] + rest;
    Regroup(prefix, r0, rest);
    forall i | |prefix| <= i < |all|
      ensures ParentStep(d, all, i)
    {
      if i > |prefix| {
        assert |next| <= i;
      }
    }
    assert all == next + rest;
  }

  /** The round trips of a resolution: the member query, then the climb
      from the principal's groups. */
  lemma ResolveRounds(d: Directory, principal: string, target: string)
    ensures Elems(NewRefs(MemberOf(d, principal), {})) <= Universe(d)
    ensures Resolve(d, principal, target).rounds
            == [MemberRound(principal, MemberOf(d, principal))] + Explore(d, NewRefs(MemberOf(d, principal), {}), {})
  {
    AnswersInUniverse(d, principal, []);
  }

  /** The catalog queries of a resolution: first kind Group with
      `relations.hasMember` = [principal], then one `relations.parentOf`
      per level over the whole new frontier, in order; all projected to the
      same five fields. */
  lemma ResolveQueries(d: Directory, principal: string, target: string)
    ensures var rounds := Resolve(d, principal, target).rounds;
      && IsTrace(d, principal, rounds)
      && rounds[0].Sent() == Query(MembersInclude("Group", [principal]), Projection)
      && forall i :: 1 <= i < |rounds| ==>
           rounds[i].Sent() == Query(ParentOfAny(Texts(NextFrontier(rounds[..i]))), Projection)
  {
    ResolveTrace(d, principal, target);
    TraceQueries(d, principal, Resolve(d, principal, target).rounds);
  }

  /** The rounds of a resolution are a trace of the climb. */
  lemma ResolveTrace(d: Directory, principal: string, target: string)
    ensures IsTrace(d, principal, Resolve(d, principal, target).rounds)
  {
    var roots := MemberOf(d, principal);
    var first := [MemberRound(principal, roots)];
    AnswersInUniverse(d, principal, []);
    assert Queried(first) == {} by {
      assert first[1..] == [];
    }
    assert NextFrontier(first) == NewRefs(roots, {});
    ExploreTrace(d, first);
    ResolveRounds(d, principal, target);
  }

  /** The queries a trace sends: the member query, then one parent query
      per round over the frontier the earlier rounds leave. */
  lemma TraceQueries(d: Directory, principal: string, rounds: seq<Round>)
    requires IsTrace(d, principal, rounds)
    ensures rounds[0].Sent() == Query(MembersInclude("Group", [principal]), Projection)
    ensures forall i :: 1 <= i < |rounds| ==>
              rounds[i].Sent() == Query(ParentOfAny(Texts(NextFrontier(rounds[..i]))), Projection)
  {
    forall i | 1 <= i < |rounds|
      ensures rounds[i].Sent() == Query(ParentOfAny(Texts(NextFrontier(rounds[..i]))), Projection)
    {
      assert ParentStep(d, rounds, i);
    }
  }


  /** The frontier after a climb step: the answered groups not yet seen. */
  function StepFrontier(d: Directory, frontier: seq<Ref>, visited: set<Ref>): seq<Ref> {
    NewRefs(ParentOf(d, frontier), visited + Elems(frontier))
  }

  /** One step of the climb, unfolded: a parent query over the frontier,
      then the climb from the next frontier with the frontier now visited. */
  lemma ExploreUnfold(d: Directory, frontier: seq<Ref>, visited: set<Ref>)
    requires Elems(frontier) <= Universe(d)
    requires Elems(frontier) !! visited
    requires frontier != []
    ensures var next, seen := StepFrontier(d, frontier, visited), visited + Elems(frontier);
      && Elems(next) <= Universe(d)
      && Elems(next) !! seen
      && Elems(next) == Ids(ParentOf(d, frontier)) - seen
      && |Universe(d) - seen| < |Universe(d) - visited|
      && var rs, rest := Explore(d, frontier, visited), Explore(d, next, seen);
         && Queried(rs) == Elems(frontier) + Queried(rest)
         && Fetched(rs) == ParentOf(d, frontier) + Fetched(rest)
  {
    var seen := visited + Elems(frontier);
    var next := StepFrontier(d, frontier, visited);
    AnswersInUniverse(d, "", frontier);
    assert frontier[0] in Elems(frontier);
    Graph.ShrinksBy(Universe(d), visited, seen, frontier[0]);
    var rs, rest := Explore(d, frontier, visited), Explore(d, next, seen);
    assert rs == [ParentRound(frontier, ParentOf(d, frontier))] + rest;
    assert rs[1..] == rest;
  }

  /** The climb asks about its frontier, and about nothing that is not the
      frontier or a fetched group; every group it fetches was visited before
      it or is asked about. */
  lemma {:induction false} ExploreAsks(d: Directory, frontier: seq<Ref>, visited: set<Ref>)
    requires Elems(frontier) <= Universe(d)
    requires Elems(frontier) !! visited
    ensures var rs := Explore(d, frontier, visited);
      && Elems(frontier) <= Queried(rs)
      && Queried(rs) <= Elems(frontier) + Ids(Fetched(rs))
      && Ids(Fetched(rs)) <= visited + Queried(rs)
    decreases |Universe(d) - visited|, 1
  {
    if frontier != [] {
      ExploreAsksStep(d, frontier, visited);
    } else {
      var rs := Explore(d, frontier, visited);
      assert Queried(rs) == {};
      assert Fetched(rs) == [];
    }
  }

  lemma {:induction false} ExploreAsksStep(d: Directory, frontier: seq<Ref>, visited: set<Ref>)
    requires Elems(frontier) <= Universe(d)
    requires Elems(frontier) !! visited
    requires frontier != []
    ensures var rs := Explore(d, frontier, visited);
      && Elems(frontier) <= Queried(rs)
      && Queried(rs) <= Elems(frontier) + Ids(Fetched(rs))
      && Ids(Fetched(rs)) <= visited + Queried(rs)
    decreases |Universe(d) - visited|, 0
  {
    ExploreUnfold(d, frontier, visited);
    var seen := visited + Elems(frontier);
    var next := StepFrontier(d, frontier, visited);
    var rest := Explore(d, next, seen);
    var rs := Explore(d, frontier, visited);
    var response := ParentOf(d, frontier);
    ExploreAsks(d, next, seen);
    IdsAppend(response, Fetched(rest));
    AskStep(visited, Elems(frontier), Ids(response), Elems(next),
            Queried(rest), Ids(Fetched(rest)), Queried(rs), Ids(Fetched(rs)));
  }

  /** The set reasoning behind one step of `ExploreAsks`, over plain sets. */
  lemma AskStep(visited: set<Ref>, front: set<Ref>, answer: set<Ref>, next: set<Ref>,
                askedLater: set<Ref>, fetchedLater: set<Ref>, asked: set<Ref>, fetched: set<Ref>)
    requires next == answer - (visited + front)
    requires next <= askedLater && askedLater <= next + fetchedLater
    requires fetchedLater <= (visited + front) + askedLater
    requires asked == front + askedLater && fetched == answer + fetchedLater
    ensures front <= asked && asked <= front + fetched && fetched <= visited + asked
  {
  }

  /** What the climb fetches is exactly the parents of what it asks about. */
  lemma {:induction false} ExploreFetchesParents(d: Directory, frontier: seq<Ref>, visited: set<Ref>)
    requires Elems(frontier) <= Universe(d)
    requires Elems(frontier) !! visited
    ensures var rs := Explore(d, frontier, visited);
      && Ids(Fetched(rs)) == Graph.Succ(ParentEdges(d), Queried(rs))
      && RecSet(Fetched(rs)) == ParentRecords(d, Queried(rs))
    decreases |Universe(d) - visited|, 1
  {
    if frontier != [] {
      ExploreFetchesParentsStep(d, frontier, visited);
    } else {
      var rs := Explore(d, frontier, visited);
      assert Queried(rs) == {};
      assert Fetched(rs) == [];
    }
  }

  lemma {:induction false} ExploreFetchesParentsStep(d: Directory, frontier: seq<Ref>, visited: set<Ref>)
    requires Elems(frontier) <= Universe(d)
    requires Elems(frontier) !! visited
    requires frontier != []
    ensures var rs := Explore(d, frontier, visited);
      && Ids(Fetched(rs)) == Graph.Succ(ParentEdges(d), Queried(rs))
      && RecSet(Fetched(rs)) == ParentRecords(d, Queried(rs))
    decreases |Universe(d) - visited|, 0
  {
    ExploreUnfold(d, frontier, visited);
    var seen := visited + Elems(frontier);
    var next := StepFrontier(d, frontier, visited);
    var rest := Explore(d, next, seen);
    ExploreFetchesParents(d, next, seen);
    var response := ParentOf(d, frontier);
    IdsAppend(response, Fetched(rest));
    SuccUnion(ParentEdges(d), Elems(frontier), Queried(rest));
    ParentRecordsUnion(d, Elems(frontier), Queried(rest));
  }

  /** The climb asks only about groups its frontier reaches. */
  lemma {:induction false} ExploreStaysAbove(d: Directory, frontier: seq<Ref>, visited: set<Ref>)
    requires Elems(frontier) <= Universe(d)
    requires Elems(frontier) !! visited
    ensures Queried(Explore(d, frontier, visited)) <= Graph.Closure(ParentEdges(d), Elems(frontier))
    decreases |Universe(d) - visited|
  {
    var rs := Explore(d, frontier, visited);
    if frontier != [] {
      var e := ParentEdges(d);
      ExploreUnfold(d, frontier, visited);
      var seen := visited + Elems(frontier);
      var next := StepFrontier(d, frontier, visited);
      ExploreStaysAbove(d, next, seen);
      var c := Graph.Closure(e, Elems(frontier));
      assert Elems(next) <= Graph.Succ(e, Elems(frontier));
      assert Graph.Succ(e, Elems(frontier)) <= Graph.Succ(e, c);
      Graph.ClosureWithin(e, Elems(frontier), Elems(next));
    } else {
      assert Queried(rs) == {};
    }
  }

  /** A resolution fetches the principal's groups, then what its climb fetches. */
  lemma ResolveFetchedSplit(d: Directory, principal: string, target: string)
    ensures Elems(NewRefs(MemberOf(d, principal), {})) <= Universe(d)
    ensures Fetched(Resolve(d, principal, target).rounds)
            == MemberOf(d, principal) + Fetched(Explore(d, NewRefs(MemberOf(d, principal), {}), {}))
  {
    ResolveRounds(d, principal, target);
    var rounds := Resolve(d, principal, target).rounds;
    assert rounds[1..] == Explore(d, NewRefs(MemberOf(d, principal), {}), {});
  }

  /** The groups and records a resolution fetches, in terms of the groups
      its climb asks about. */
  lemma ResolveFetched(d: Directory, principal: string, target: string)
    ensures var roots, fetched := MemberOf(d, principal), Fetched(Resolve(d, principal, target).rounds);
      var asked := Queried(Explore(d, NewRefs(roots, {}), {}));
      && Ids(fetched) == asked
      && asked == Graph.Closure(ParentEdges(d), Ids(roots))
      && RecSet(fetched) == RecSet(roots) + ParentRecords(d, asked)
  {
    var roots := MemberOf(d, principal);
    var fr := NewRefs(roots, {});
    ResolveFetchedSplit(d, principal, target);
    var rs := Explore(d, fr, {});
    ExploreAsks(d, fr, {});
    ExploreFetchesParents(d, fr, {});
    ExploreStaysAbove(d, fr, {});
    IdsAppend(roots, Fetched(rs));
    ClosureOfClimb(ParentEdges(d), Ids(roots), Elems(fr), Queried(rs), Ids(Fetched(rs)));
  }

  /** The set reasoning behind `ResolveFetched`: a set that contains the
      roots, is closed under successors and lies within the closure of the
      roots is that closure. */
  lemma ClosureOfClimb(e: Graph.Edges, roots: set<Ref>, front: set<Ref>, asked: set<Ref>, fetched: set<Ref>)
    requires front == roots
    requires front <= asked && asked <= front + fetched && fetched <= asked
    requires fetched == Graph.Succ(e, asked)
    requires asked <= Graph.Closure(e, front)
    ensures roots + fetched == asked
    ensures asked == Graph.Closure(e, roots)
  {
    Graph.ClosureLeast(e, roots, asked);
  }

  /** The groups a resolution fetches are exactly the principal's ancestors,
      and the records it fetches are exactly the directory's records for
      them. */
  lemma ResolveFetchesAncestors(d: Directory, principal: string, target: string)
    ensures var fetched := Fetched(Resolve(d, principal, target).rounds);
      && (forall r :: r in Ids(fetched) <==> IsAncestor(d, principal, r))
      && RecSet(fetched) == AncestorRecords(d, principal)
  {
    var roots := MemberOf(d, principal);
    var asked := Queried(Explore(d, NewRefs(roots, {}), {}));
    ResolveFetched(d, principal, target);
    ClosureIsAncestors(d, principal, asked);
    AncestorParentRecords(d, principal, asked);
  }

  /** The closure of the principal's groups under the parent edges holds
      exactly its ancestors. */
  lemma ClosureIsAncestors(d: Directory, principal: string, asked: set<Ref>)
    requires asked == Graph.Closure(ParentEdges(d), Ids(MemberOf(d, principal)))
    ensures forall r :: r in asked <==> IsAncestor(d, principal, r)
  {
    forall r
      ensures r in asked <==> IsAncestor(d, principal, r)
    {
      Graph.ClosureIsReachable(ParentEdges(d), Ids(MemberOf(d, principal)), r);
    }
  }

  /** The records answered for exactly the ancestors, with the principal's
      own groups, are the ancestor records. */
  lemma AncestorParentRecords(d: Directory, principal: string, asked: set<Ref>)
    requires forall r :: r in asked <==> IsAncestor(d, principal, r)
    ensures RecSet(MemberOf(d, principal)) + ParentRecords(d, asked) == AncestorRecords(d, principal)
  {
    var roots := MemberOf(d, principal);
    forall g | g in AncestorRecords(d, principal)
      ensures g in RecSet(roots) + ParentRecords(d, asked)
    {
      if g !in RecSet(roots) {
        var r :| r in d.parents && IsAncestor(d, principal, r) && g in d.parents[r];
        assert r in asked;
      }
    }
    forall g | g in ParentRecords(d, asked)
      ensures g in AncestorRecords(d, principal)
    {
      var r :| r in asked && r in d.parents && g in d.parents[r];
      assert IsAncestor(d, principal, r);
    }
  }


  /** The answer of a resolution: true exactly when the target names one of
      the principal's ancestors and the group graph of the ancestors' records
      has no cycle. A cycle instead logs one warning that lists the cycles
      and names the target. */
  lemma ResolveAnswer(d: Directory, principal: string, target: string)
    ensures var out := Resolve(d, principal, target);
      var graph := FieldEdges(AncestorRecords(d, principal));
      && (out.answer <==>
           Graph.Acyclic(graph) && exists r :: IsAncestor(d, principal, r) && Text(r) == target)
      && (out.warnings == [] <==> Graph.Acyclic(graph))
      && (out.warnings != [] ==> out.warnings == [CycleWarning(Graph.Cycles(graph), target)])
  {
    ResolveFetchesAncestors(d, principal, target);
    var fetched := Fetched(Resolve(d, principal, target).rounds);
    if Names(fetched, target) {
      var g :| g in fetched && Text(g.Id()) == target;
      assert g.Id() in Ids(fetched);
    }
    if exists r :: IsAncestor(d, principal, r) && Text(r) == target {
      var r :| IsAncestor(d, principal, r) && Text(r) == target;
      assert r in Ids(fetched);
      var g :| g in fetched && g.Id() == r;
    }
  }

  /** A cycle among the principal's ancestors makes every target unreachable,
      even a group the principal belongs to directly, and the warning names
      the target asked about. */
  lemma CycleMeansNoLink(d: Directory, name1: string, name2: string, a: Ref)
    requires name1 != name2
    requires Graph.OnCycle(FieldEdges(AncestorRecords(d, name1)), a)
    ensures HasLink(d, name1, name2, []).Success?
    ensures !HasLink(d, name1, name2, []).value.answer
    ensures KindOf(name2) != Some(UserKind) ==>
              var w := HasLink(d, name1, name2, []).value.warnings;
              |w| == 1 && w[0].group == name2 && exists c :: c in w[0].cycles && a in c
  {
    var graph := FieldEdges(AncestorRecords(d, name1));
    ResolveAnswer(d, name1, name2);
    var p :| Graph.IsPath(graph, p) && |p| >= 2 && p[0] == a && p[|p| - 1] == a;
    assert !Graph.Acyclic(graph);
    Graph.IsOnCycleIff(graph, a);
    assert (p[0], p[1]) in graph;
    assert a in Graph.Nodes(graph);
    assert Graph.Component(graph, a) in Graph.Cycles(graph);
    assert a in Graph.Component(graph, a);
  }

  /** `hasLink` without a domain, in one statement: a principal inherits
      itself, and otherwise inherits a non-user target exactly when the
      target is an ancestor and the ancestors' group graph is acyclic. */
  lemma HasLinkAnswer(d: Directory, name1: string, name2: string)
    ensures HasLink(d, name1, name2, []).Success?
    ensures HasLink(d, name1, name2, []).value.answer <==>
              || name1 == name2
              || (&& KindOf(name2) != Some(UserKind)
                  && Graph.Acyclic(FieldEdges(AncestorRecords(d, name1)))
                  && exists r :: IsAncestor(d, name1, r) && Text(r) == name2)
  {
    ResolveAnswer(d, name1, name2);
  }

  /** A batched parent query depends only on what the directory says about
      the frontier's groups. */
  lemma {:induction false} ParentOfLocal(d1: Directory, d2: Directory, frontier: seq<Ref>)
    requires forall r :: r in frontier ==> ParentsOf(d1, r) == ParentsOf(d2, r)
    ensures ParentOf(d1, frontier) == ParentOf(d2, frontier)
  {
    if frontier != [] {
      ParentOfLocal(d1, d2, frontier[1..]);
    }
  }

  lemma {:induction false} ExploreLocal(d1: Directory, d2: Directory, frontier: seq<Ref>, visited: set<Ref>)
    requires Elems(frontier) <= Universe(d1) && Elems(frontier) <= Universe(d2)
    requires Elems(frontier) !! visited
    requires forall r :: r in Graph.Closure(ParentEdges(d1), Elems(frontier)) ==> ParentsOf(d1, r) == ParentsOf(d2, r)
    ensures Explore(d1, frontier, visited) == Explore(d2, frontier, visited)
    decreases |Universe(d1) - visited|
  {
    if frontier != [] {
      var e := ParentEdges(d1);
      var c := Graph.Closure(e, Elems(frontier));
      ParentOfLocal(d1, d2, frontier);
      var response := ParentOf(d1, frontier);
      var seen := visited + Elems(frontier);
      var next := NewRefs(response, seen);
      AnswersInUniverse(d1, "", frontier);
      AnswersInUniverse(d2, "", frontier);
      assert frontier[0] in Elems(frontier);
      Graph.ShrinksBy(Universe(d1), visited, seen, frontier[0]);
      assert Elems(next) <= c;
      Graph.ClosureWithin(e, Elems(frontier), Elems(next));
      ExploreLocal(d1, d2, next, seen);
    }
  }

  /** A resolution depends only on the principal's groups and on what the
      directory says about the principal's ancestors: changing the directory
      anywhere else (say, adding a cycle in a neighbouring subgraph) changes
      neither the answer, nor the queries, nor the warnings. */
  lemma ResolveIsLocal(d1: Directory, d2: Directory, principal: string, target: string)
    requires MemberOf(d1, principal) == MemberOf(d2, principal)
    requires forall r :: IsAncestor(d1, principal, r) ==> ParentsOf(d1, r) == ParentsOf(d2, r)
    ensures Resolve(d1, principal, target) == Resolve(d2, principal, target)
  {
    ClimbIsLocal(d1, d2, principal);
    ResolveRounds(d1, principal, target);
    ResolveRounds(d2, principal, target);
    ResolveFromRounds(d1, principal, target);
    ResolveFromRounds(d2, principal, target);
  }

  /** A resolution's answer and warnings follow from its round trips alone. */
  lemma ResolveFromRounds(d: Directory, principal: string, target: string)
    ensures var out := Resolve(d, principal, target);
      var recs := Fetched(out.rounds);
      out == Outcome(Detect(RecSet(recs), target) == [] && Names(recs, target), out.rounds, Detect(RecSet(recs), target))
  {
  }

  /** The climb of a resolution is the same in two directories that agree
      on the principal's groups and on its ancestors' parents. */
  lemma ClimbIsLocal(d1: Directory, d2: Directory, principal: string)
    requires MemberOf(d1, principal) == MemberOf(d2, principal)
    requires forall r :: IsAncestor(d1, principal, r) ==> ParentsOf(d1, r) == ParentsOf(d2, r)
    ensures Elems(NewRefs(MemberOf(d1, principal), {})) <= Universe(d1)
    ensures Elems(NewRefs(MemberOf(d1, principal), {})) <= Universe(d2)
    ensures Explore(d1, NewRefs(MemberOf(d1, principal), {}), {}) == Explore(d2, NewRefs(MemberOf(d1, principal), {}), {})
  {
    var roots := MemberOf(d1, principal);
    var fr := NewRefs(roots, {});
    AnswersInUniverse(d1, principal, []);
    AnswersInUniverse(d2, principal, []);
    assert Elems(fr) == Ids(roots);
    forall r | r in Graph.Closure(ParentEdges(d1), Ids(roots))
      ensures ParentsOf(d1, r) == ParentsOf(d2, r)
    {
      Graph.ClosureIsReachable(ParentEdges(d1), Ids(roots), r);
      assert IsAncestor(d1, principal, r);
    }
    ExploreLocal(d1, d2, fr, {});
  }
}
