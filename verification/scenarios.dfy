/** The fixtures of role-manager.test.ts, each stated for every directory
    that answers the resolver's queries as the fixture's catalog mock does,
    and for any distinct group names in place of the fixture's. */
module Scenarios {
  import opened Wrappers
  import opened Refs
  import opened Catalog
  import opened CycleTracker
  import opened RoleManager
  import opened RoleManagerProofs
  import Graph

  /** A group in the default namespace, as the fixtures create them. */
  function Group(name: string, parent: Option<string>, children: seq<string>): GroupRec {
    GroupRec(DefaultNamespace, name, parent, children)
  }

  /** No name occurs twice. */
  predicate AllDistinct(names: seq<string>) {
    forall i, j :: 0 <= i < j < |names| ==> names[i] != names[j]
  }

  /** Every edge of `e` climbs `rank`, or keeps it level while leaving a
      node of `level`. */
  ghost predicate Ranked(e: Graph.Edges, rank: Ref -> int, level: set<Ref>) {
    forall x :: x in e ==> rank(x.0) < rank(x.1) || (rank(x.0) == rank(x.1) && x.0 in level)
  }

  /** The edges a record contributes to the group graph climb `rank`, or
      keep it level while leaving a node of `level`. */
  ghost predicate RecordRanked(g: GroupRec, rank: Ref -> int, level: set<Ref>) {
    && (g.parent.Some? ==>
          rank(g.Id()) < rank(GroupRef(g.parent.value))
          || (rank(g.Id()) == rank(GroupRef(g.parent.value)) && g.Id() in level))
    && (forall c :: c in g.children ==>
          rank(GroupRef(c)) < rank(g.Id()) || (rank(GroupRef(c)) == rank(g.Id()) && GroupRef(c) in level))
  }

  lemma RecordsRanked(recs: seq<GroupRec>, rank: Ref -> int, level: set<Ref>)
    requires forall i :: 0 <= i < |recs| ==> RecordRanked(recs[i], rank, level)
    ensures Ranked(FieldEdges(RecSet(recs)), rank, level)
  {
    forall x | x in FieldEdges(RecSet(recs))
      ensures rank(x.0) < rank(x.1) || (rank(x.0) == rank(x.1) && x.0 in level)
    {
      var g :| g in recs && ((g.parent.Some? && x == (g.Id(), GroupRef(g.parent.value)))
                             || (exists c :: c in g.children && x == (GroupRef(c), g.Id())));
      var i :| 0 <= i < |recs| && recs[i] == g;
      assert RecordRanked(recs[i], rank, level);
    }
  }

  /** Records whose group graph climbs a ranking log nothing. */
  lemma AcyclicOutcome(recs: seq<GroupRec>, rank: Ref -> int, target: string)
    requires forall i :: 0 <= i < |recs| ==> RecordRanked(recs[i], rank, {})
    ensures Detect(RecSet(recs), target) == []
  {
    RecordsRanked(recs, rank, {});
    Graph.RankedIsAcyclic(FieldEdges(RecSet(recs)), rank);
  }

  /** Records whose group graph has one closed walk `ring`, and otherwise
      climbs a ranking, log one warning that lists exactly that cycle. */
  lemma CyclicOutcome(recs: seq<GroupRec>, rank: Ref -> int, ring: seq<Ref>, target: string)
    requires Graph.IsPath(FieldEdges(RecSet(recs)), ring) && |ring| >= 2 && ring[0] == ring[|ring| - 1]
    requires forall i :: 0 <= i < |recs| ==> RecordRanked(recs[i], rank, Elems(ring))
    ensures Detect(RecSet(recs), target) == [CycleWarning({Elems(ring)}, target)]
  {
    var e := FieldEdges(RecSet(recs));
    RecordsRanked(recs, rank, Elems(ring));
    Graph.OneCycle(e, rank, ring);
    Graph.CyclesEmptyIff(e);
  }

  /** Outside the reflexive and user-target cases, `hasLink` is the
      resolution. */
  lemma HasLinkResolves(d: Directory, user: string, target: string)
    requires KindOf(user) == Some(UserKind) && KindOf(target) != Some(UserKind)
    ensures HasLink(d, user, target, []) == Success(Resolve(d, user, target))
  {
  }

  lemma ParentOfOne(d: Directory, r: Ref)
    ensures ParentOf(d, [r]) == ParentsOf(d, r)
  {
    assert ParentOf(d, [r]) == ParentsOf(d, r) + ParentOf(d, []);
  }

  /** The principal's own groups are in the directory's universe. */
  lemma RootsInUniverse(d: Directory, user: string, roots: seq<GroupRec>, f1: seq<Ref>)
    requires MemberOf(d, user) == roots && NewRefs(roots, {}) == f1
    ensures Elems(f1) <= Universe(d)
  {
    AnswersInUniverse(d, user, []);
  }

  /** One level of the climb over a known answer, followed by the rest. */
  lemma ClimbStep(d: Directory, frontier: seq<Ref>, visited: set<Ref>, response: seq<GroupRec>, seen: set<Ref>, next: seq<Ref>)
    requires Elems(frontier) <= Universe(d) && Elems(frontier) !! visited && frontier != []
    requires ParentOf(d, frontier) == response && seen == visited + Elems(frontier)
    requires NewRefs(response, seen) == next
    ensures Elems(next) <= Universe(d) && Elems(next) !! seen
    ensures Explore(d, frontier, visited) == [ParentRound(frontier, response)] + Explore(d, next, seen)
  {
    ExploreUnfold(d, frontier, visited);
  }

  /** The last level of the climb: its answer holds nothing new. */
  lemma ClimbLast(d: Directory, frontier: seq<Ref>, visited: set<Ref>, response: seq<GroupRec>, seen: set<Ref>)
    requires Elems(frontier) <= Universe(d) && Elems(frontier) !! visited && frontier != []
    requires ParentOf(d, frontier) == response && seen == visited + Elems(frontier)
    requires NewRefs(response, seen) == []
    ensures Explore(d, frontier, visited) == [ParentRound(frontier, response)]
  {
    ExploreUnfold(d, frontier, visited);
  }

  lemma ClimbOne(d: Directory, f1: seq<Ref>, r1: seq<GroupRec>)
    requires Elems(f1) <= Universe(d) && f1 != []
    requires ParentOf(d, f1) == r1 && NewRefs(r1, Elems(f1)) == []
    ensures Explore(d, f1, {}) == [ParentRound(f1, r1)]
  {
    ClimbLast(d, f1, {}, r1, Elems(f1));
  }

  lemma ClimbTwo(d: Directory, f1: seq<Ref>, r1: seq<GroupRec>, f2: seq<Ref>, r2: seq<GroupRec>)
    requires Elems(f1) <= Universe(d) && f1 != []
    requires ParentOf(d, f1) == r1 && NewRefs(r1, Elems(f1)) == f2 && f2 != []
    requires ParentOf(d, f2) == r2 && NewRefs(r2, Elems(f1) + Elems(f2)) == []
    ensures Explore(d, f1, {}) == [ParentRound(f1, r1), ParentRound(f2, r2)]
  {
    assert {} + Elems(f1) == Elems(f1);
    ClimbStep(d, f1, {}, r1, Elems(f1), f2);
    ClimbLast(d, f2, Elems(f1), r2, Elems(f1) + Elems(f2));
    var p1, p2 := ParentRound(f1, r1), ParentRound(f2, r2);
    assert [p1] + [p2] == [p1, p2];
  }

  lemma ClimbThree(d: Directory, f1: seq<Ref>, r1: seq<GroupRec>, f2: seq<Ref>, r2: seq<GroupRec>,
                   f3: seq<Ref>, r3: seq<GroupRec>)
    requires Elems(f1) <= Universe(d) && f1 != []
    requires ParentOf(d, f1) == r1 && NewRefs(r1, Elems(f1)) == f2 && f2 != []
    requires ParentOf(d, f2) == r2 && NewRefs(r2, Elems(f1) + Elems(f2)) == f3 && f3 != []
    requires ParentOf(d, f3) == r3 && NewRefs(r3, Elems(f1) + Elems(f2) + Elems(f3)) == []
    ensures Explore(d, f1, {}) == [ParentRound(f1, r1), ParentRound(f2, r2), ParentRound(f3, r3)]
  {
    assert {} + Elems(f1) == Elems(f1);
    ClimbStep(d, f1, {}, r1, Elems(f1), f2);
    ClimbTwoFrom(d, Elems(f1), f2, r2, f3, r3);
    var p1, p2, p3 := ParentRound(f1, r1), ParentRound(f2, r2), ParentRound(f3, r3);
    assert [p1] + [p2, p3] == [p1, p2, p3];
  }

  lemma ClimbTwoFrom(d: Directory, visited: set<Ref>, f2: seq<Ref>, r2: seq<GroupRec>, f3: seq<Ref>, r3: seq<GroupRec>)
    requires Elems(f2) <= Universe(d) && Elems(f2) !! visited && f2 != []
    requires ParentOf(d, f2) == r2 && NewRefs(r2, visited + Elems(f2)) == f3 && f3 != []
    requires ParentOf(d, f3) == r3 && NewRefs(r3, visited + Elems(f2) + Elems(f3)) == []
    ensures Explore(d, f2, visited) == [ParentRound(f2, r2), ParentRound(f3, r3)]
  {
    ClimbStep(d, f2, visited, r2, visited + Elems(f2), f3);
    ClimbLast(d, f3, visited + Elems(f2), r3, visited + Elems(f2) + Elems(f3));
    var p2, p3 := ParentRound(f2, r2), ParentRound(f3, r3);
    assert [p2] + [p3] == [p2, p3];
  }

  /** The records a sequence of rounds returned, for one to four rounds. */
  lemma FetchedRounds(m: Round, p1: Round, p2: Round, p3: Round)
    ensures Fetched([m, p1]) == m.response + p1.response
    ensures Fetched([m, p1, p2]) == m.response + p1.response + p2.response
    ensures Fetched([m, p1, p2, p3]) == m.response + p1.response + p2.response + p3.response
  {
    assert Fetched([p3]) == p3.response by { assert [p3][1..] == []; }
    assert Fetched([p2]) == p2.response by { assert [p2][1..] == []; }
    assert Fetched([p1]) == p1.response by { assert [p1][1..] == []; }
    assert Fetched([p2, p3]) == p2.response + p3.response by { assert [p2, p3][1..] == [p3]; }
    assert Fetched([p1, p2]) == p1.response + p2.response by { assert [p1, p2][1..] == [p2]; }
    assert Fetched([p1, p2, p3]) == p1.response + (p2.response + p3.response) by { assert [p1, p2, p3][1..] == [p2, p3]; }
    assert [m, p1][1..] == [p1];
    assert [m, p1, p2][1..] == [p1, p2];
    assert [m, p1, p2, p3][1..] == [p1, p2, p3];
  }

  /** A resolution whose rounds and fetched records are known: its
      outcome, from those records. */
  lemma ResolveFrom(d: Directory, user: string, target: string, rounds: seq<Round>, recs: seq<GroupRec>)
    requires Resolve(d, user, target).rounds == rounds && Fetched(rounds) == recs
    ensures Resolve(d, user, target)
            == Outcome(Detect(RecSet(recs), target) == [] && Names(recs, target), rounds, Detect(RecSet(recs), target))
  {
    ResolveFromRounds(d, user, target);
  }

  /** A resolution whose climb is known: its outcome, from the records its
      rounds returned. */
  lemma ResolveOne(d: Directory, user: string, target: string, roots: seq<GroupRec>, p1: Round)
    requires MemberOf(d, user) == roots
    requires Explore(d, NewRefs(roots, {}), {}) == [p1]
    ensures var recs := roots + p1.response;
      Resolve(d, user, target)
        == Outcome(Detect(RecSet(recs), target) == [] && Names(recs, target),
                   [MemberRound(user, roots), p1], Detect(RecSet(recs), target))
  {
    var m := MemberRound(user, roots);
    ResolveRounds(d, user, target);
    FetchedRounds(m, p1, p1, p1);
    ResolveFrom(d, user, target, [m, p1], roots + p1.response);
  }

  lemma ResolveTwo(d: Directory, user: string, target: string, roots: seq<GroupRec>, p1: Round, p2: Round)
    requires MemberOf(d, user) == roots
    requires Explore(d, NewRefs(roots, {}), {}) == [p1, p2]
    ensures var recs := roots + p1.response + p2.response;
      Resolve(d, user, target)
        == Outcome(Detect(RecSet(recs), target) == [] && Names(recs, target),
                   [MemberRound(user, roots), p1, p2], Detect(RecSet(recs), target))
  {
    var m := MemberRound(user, roots);
    ResolveRounds(d, user, target);
    assert [m] + [p1, p2] == [m, p1, p2];
    FetchedRounds(m, p1, p2, p2);
    ResolveFrom(d, user, target, [m, p1, p2], roots + p1.response + p2.response);
  }

  lemma ResolveThree(d: Directory, user: string, target: string, roots: seq<GroupRec>, p1: Round, p2: Round, p3: Round)
    requires MemberOf(d, user) == roots
    requires Explore(d, NewRefs(roots, {}), {}) == [p1, p2, p3]
    ensures var recs := roots + p1.response + p2.response + p3.response;
      Resolve(d, user, target)
        == Outcome(Detect(RecSet(recs), target) == [] && Names(recs, target),
                   [MemberRound(user, roots), p1, p2, p3], Detect(RecSet(recs), target))
  {
    var m := MemberRound(user, roots);
    ResolveRounds(d, user, target);
    assert [m] + [p1, p2, p3] == [m, p1, p2, p3];
    FetchedRounds(m, p1, p2, p3);
    ResolveFrom(d, user, target, [m, p1, p2, p3], roots + p1.response + p2.response + p3.response);
  }

  /** A resolution with one parent round over records whose group graph
      climbs a ranking: it answers whether a fetched record is the target,
      and logs nothing. */
  lemma AcyclicOne(dir: Directory, user: string, t: string, roots: seq<GroupRec>,
                   f1: seq<Ref>, r1: seq<GroupRec>, rank: Ref -> int)
    requires KindOf(user) == Some(UserKind) && KindOf(t) != Some(UserKind)
    requires MemberOf(dir, user) == roots && NewRefs(roots, {}) == f1 && f1 != []
    requires ParentOf(dir, f1) == r1 && NewRefs(r1, Elems(f1)) == []
    requires forall i :: 0 <= i < |roots + r1| ==> RecordRanked((roots + r1)[i], rank, {})
    ensures HasLink(dir, user, t, [])
            == Success(Outcome(Names(roots + r1, t), [MemberRound(user, roots), ParentRound(f1, r1)], []))
  {
    HasLinkResolves(dir, user, t);
    RootsInUniverse(dir, user, roots, f1);
    ClimbOne(dir, f1, r1);
    ResolveOne(dir, user, t, roots, ParentRound(f1, r1));
    AcyclicOutcome(roots + r1, rank, t);
  }

  lemma AcyclicTwo(dir: Directory, user: string, t: string, roots: seq<GroupRec>,
                   f1: seq<Ref>, r1: seq<GroupRec>, f2: seq<Ref>, r2: seq<GroupRec>, rank: Ref -> int)
    requires KindOf(user) == Some(UserKind) && KindOf(t) != Some(UserKind)
    requires MemberOf(dir, user) == roots && NewRefs(roots, {}) == f1 && f1 != []
    requires ParentOf(dir, f1) == r1 && NewRefs(r1, Elems(f1)) == f2 && f2 != []
    requires ParentOf(dir, f2) == r2 && NewRefs(r2, Elems(f1) + Elems(f2)) == []
    requires forall i :: 0 <= i < |roots + r1 + r2| ==> RecordRanked((roots + r1 + r2)[i], rank, {})
    ensures HasLink(dir, user, t, []) == Success(Outcome(Names(roots + r1 + r2, t),
              [MemberRound(user, roots), ParentRound(f1, r1), ParentRound(f2, r2)], []))
  {
    HasLinkResolves(dir, user, t);
    RootsInUniverse(dir, user, roots, f1);
    ClimbTwo(dir, f1, r1, f2, r2);
    ResolveTwo(dir, user, t, roots, ParentRound(f1, r1), ParentRound(f2, r2));
    AcyclicOutcome(roots + r1 + r2, rank, t);
  }

  lemma AcyclicThree(dir: Directory, user: string, t: string, roots: seq<GroupRec>,
                     f1: seq<Ref>, r1: seq<GroupRec>, f2: seq<Ref>, r2: seq<GroupRec>,
                     f3: seq<Ref>, r3: seq<GroupRec>, rank: Ref -> int)
    requires KindOf(user) == Some(UserKind) && KindOf(t) != Some(UserKind)
    requires MemberOf(dir, user) == roots && NewRefs(roots, {}) == f1 && f1 != []
    requires ParentOf(dir, f1) == r1 && NewRefs(r1, Elems(f1)) == f2 && f2 != []
    requires ParentOf(dir, f2) == r2 && NewRefs(r2, Elems(f1) + Elems(f2)) == f3 && f3 != []
    requires ParentOf(dir, f3) == r3 && NewRefs(r3, Elems(f1) + Elems(f2) + Elems(f3)) == []
    requires forall i :: 0 <= i < |roots + r1 + r2 + r3| ==> RecordRanked((roots + r1 + r2 + r3)[i], rank, {})
    ensures HasLink(dir, user, t, []) == Success(Outcome(Names(roots + r1 + r2 + r3, t),
              [MemberRound(user, roots), ParentRound(f1, r1), ParentRound(f2, r2), ParentRound(f3, r3)], []))
  {
    HasLinkResolves(dir, user, t);
    RootsInUniverse(dir, user, roots, f1);
    ClimbThree(dir, f1, r1, f2, r2, f3, r3);
    ResolveThree(dir, user, t, roots, ParentRound(f1, r1), ParentRound(f2, r2), ParentRound(f3, r3));
    AcyclicOutcome(roots + r1 + r2 + r3, rank, t);
  }

  /** A resolution with two parent rounds over records whose group graph
      has exactly one cycle, the closed walk `ring`: it answers false, for
      any target, and logs one warning listing that cycle and naming the
      target. */
  lemma CyclicTwo(dir: Directory, user: string, t: string, roots: seq<GroupRec>,
                  f1: seq<Ref>, r1: seq<GroupRec>, f2: seq<Ref>, r2: seq<GroupRec>,
                  rank: Ref -> int, ring: seq<Ref>)
    requires KindOf(user) == Some(UserKind) && KindOf(t) != Some(UserKind)
    requires MemberOf(dir, user) == roots && NewRefs(roots, {}) == f1 && f1 != []
    requires ParentOf(dir, f1) == r1 && NewRefs(r1, Elems(f1)) == f2 && f2 != []
    requires ParentOf(dir, f2) == r2 && NewRefs(r2, Elems(f1) + Elems(f2)) == []
    requires Graph.IsPath(FieldEdges(RecSet(roots + r1 + r2)), ring) && |ring| >= 2 && ring[0] == ring[|ring| - 1]
    requires forall i :: 0 <= i < |roots + r1 + r2| ==> RecordRanked((roots + r1 + r2)[i], rank, Elems(ring))
    ensures HasLink(dir, user, t, []) == Success(Outcome(false,
              [MemberRound(user, roots), ParentRound(f1, r1), ParentRound(f2, r2)],
              [CycleWarning({Elems(ring)}, t)]))
  {
    HasLinkResolves(dir, user, t);
    RootsInUniverse(dir, user, roots, f1);
    ClimbTwo(dir, f1, r1, f2, r2);
    ResolveTwo(dir, user, t, roots, ParentRound(f1, r1), ParentRound(f2, r2));
    CyclicOutcome(roots + r1 + r2, rank, ring, t);
  }

  lemma CyclicThree(dir: Directory, user: string, t: string, roots: seq<GroupRec>,
                    f1: seq<Ref>, r1: seq<GroupRec>, f2: seq<Ref>, r2: seq<GroupRec>,
                    f3: seq<Ref>, r3: seq<GroupRec>, rank: Ref -> int, ring: seq<Ref>)
    requires KindOf(user) == Some(UserKind) && KindOf(t) != Some(UserKind)
    requires MemberOf(dir, user) == roots && NewRefs(roots, {}) == f1 && f1 != []
    requires ParentOf(dir, f1) == r1 && NewRefs(r1, Elems(f1)) == f2 && f2 != []
    requires ParentOf(dir, f2) == r2 && NewRefs(r2, Elems(f1) + Elems(f2)) == f3 && f3 != []
    requires ParentOf(dir, f3) == r3 && NewRefs(r3, Elems(f1) + Elems(f2) + Elems(f3)) == []
    requires Graph.IsPath(FieldEdges(RecSet(roots + r1 + r2 + r3)), ring) && |ring| >= 2 && ring[0] == ring[|ring| - 1]
    requires forall i :: 0 <= i < |roots + r1 + r2 + r3| ==> RecordRanked((roots + r1 + r2 + r3)[i], rank, Elems(ring))
    ensures HasLink(dir, user, t, []) == Success(Outcome(false,
              [MemberRound(user, roots), ParentRound(f1, r1), ParentRound(f2, r2), ParentRound(f3, r3)],
              [CycleWarning({Elems(ring)}, t)]))
  {
    HasLinkResolves(dir, user, t);
    RootsInUniverse(dir, user, roots, f1);
    ClimbThree(dir, f1, r1, f2, r2, f3, r3);
    ResolveThree(dir, user, t, roots, ParentRound(f1, r1), ParentRound(f2, r2), ParentRound(f3, r3));
    CyclicOutcome(roots + r1 + r2 + r3, rank, ring, t);
  }

  // role-manager.test.ts:94: a user without groups.

  /** With no groups, the one query is the member query, projected to the
      five fields, and nothing inherits. */
  lemma NoGroups(dir: Directory, user: string, t: string)
    requires KindOf(user) == Some(UserKind) && KindOf(t) != Some(UserKind)
    requires MemberOf(dir, user) == []
    ensures HasLink(dir, user, t, []) == Success(Outcome(false, [MemberRound(user, [])], []))
    ensures MemberRound(user, []).Sent() == Query(MembersInclude("Group", [user]),
              ["metadata.name", "kind", "metadata.namespace", "spec.parent", "spec.children"])
  {
    var m := MemberRound(user, []);
    HasLinkResolves(dir, user, t);
    ResolveRounds(dir, user, t);
    ResolveFromRounds(dir, user, t);
    assert [m] + [] == [m];
    FetchedRounds(m, m, m, m);
    AcyclicOutcome([], r => 0, t);
  }

  // role-manager.test.ts:123 and :142: the catalog answers every query with
  // one group `g` that has neither parent nor children.

  predicate SingleGroupFixture(dir: Directory, user: string, g: string) {
    && KindOf(user) == Some(UserKind)
    && MemberOf(dir, user) == [Group(g, None, [])]
    && ParentsOf(dir, GroupRef(g)) == [Group(g, None, [])]
  }

  lemma SingleGroupFacts(g: string, t: string)
    ensures NewRefs([Group(g, None, [])], {}) == [GroupRef(g)]
    ensures NewRefs([Group(g, None, [])], Elems([GroupRef(g)])) == []
    ensures var recs := [Group(g, None, [])] + [Group(g, None, [])];
      && (forall i :: 0 <= i < |recs| ==> RecordRanked(recs[i], r => 0, {}))
      && (Names(recs, t) <==> t == Text(GroupRef(g)))
  {
  }

  /** The principal inherits exactly the one group: `somegroup` when the
      catalog answers with it, not when it answers with `not-matched-group`. */
  lemma SingleGroup(dir: Directory, user: string, g: string, t: string)
    requires SingleGroupFixture(dir, user, g) && KindOf(t) != Some(UserKind)
    ensures HasLink(dir, user, t, []) == Success(Outcome(t == Text(GroupRef(g)),
      [MemberRound(user, [Group(g, None, [])]), ParentRound([GroupRef(g)], [Group(g, None, [])])], []))
  {
    var gg, rg := Group(g, None, []), GroupRef(g);
    ParentOfOne(dir, rg);
    SingleGroupFacts(g, t);
    AcyclicOne(dir, user, t, [gg], [rg], [gg], r => 0);
  }

  // role-manager.test.ts:163 and :250: team-a is the parent of team-b, the
  // principal's group.

  predicate ChainFixture(dir: Directory, user: string, a: string, b: string) {
    && a != b && KindOf(user) == Some(UserKind)
    && MemberOf(dir, user) == [Group(b, Some(a), [])]
    && ParentsOf(dir, GroupRef(b)) == [Group(a, None, [b])]
    && ParentsOf(dir, GroupRef(a)) == []
  }

  lemma ChainFacts(a: string, b: string, t: string)
    requires a != b
    ensures NewRefs([Group(b, Some(a), [])], {}) == [GroupRef(b)]
    ensures NewRefs([Group(a, None, [b])], Elems([GroupRef(b)])) == [GroupRef(a)]
    ensures NewRefs([], Elems([GroupRef(b)]) + Elems([GroupRef(a)])) == []
    ensures var recs := [Group(b, Some(a), [])] + [Group(a, None, [b])] + [];
      && (forall i :: 0 <= i < |recs| ==> RecordRanked(recs[i], r => if r == GroupRef(a) then 1 else 0, {}))
      && (Names(recs, t) <==> t == Text(GroupRef(a)) || t == Text(GroupRef(b)))
  {
    DistinctGroups(a, b);
    var recs := [Group(b, Some(a), [])] + [Group(a, None, [b])] + [];
    assert recs[1] == Group(a, None, [b]);
  }

  /** The principal inherits team-b and its parent team-a and nothing else
      (not team-c); the resolver asks for the principal's groups, the
      parents of team-b, then the parents of team-a. */
  lemma Chain(dir: Directory, user: string, a: string, b: string, t: string)
    requires ChainFixture(dir, user, a, b) && KindOf(t) != Some(UserKind)
    ensures HasLink(dir, user, t, []) == Success(Outcome(t == Text(GroupRef(a)) || t == Text(GroupRef(b)),
      [MemberRound(user, [Group(b, Some(a), [])]),
       ParentRound([GroupRef(b)], [Group(a, None, [b])]),
       ParentRound([GroupRef(a)], [])], []))
  {
    var ga, gb, ra, rb := Group(a, None, [b]), Group(b, Some(a), []), GroupRef(a), GroupRef(b);
    ParentOfOne(dir, rb);
    ParentOfOne(dir, ra);
    ChainFacts(a, b, t);
    AcyclicTwo(dir, user, t, [gb], [rb], [ga], [ra], [], r => if r == ra then 1 else 0);
  }

  // role-manager.test.ts:198: team-a is the parent of team-b, team-c and
  // team-d; the principal belongs to team-b.

  predicate SharedParentFixture(dir: Directory, user: string, a: string, b: string, c: string, d: string) {
    && AllDistinct([a, b, c, d]) && KindOf(user) == Some(UserKind)
    && MemberOf(dir, user) == [Group(b, Some(a), [])]
    && ParentsOf(dir, GroupRef(b)) == [Group(a, None, [b, c, d])]
    && ParentsOf(dir, GroupRef(a)) == []
  }

  lemma SharedParentFacts(a: string, b: string, c: string, d: string, t: string)
    requires AllDistinct([a, b, c, d])
    ensures NewRefs([Group(b, Some(a), [])], {}) == [GroupRef(b)]
    ensures NewRefs([Group(a, None, [b, c, d])], Elems([GroupRef(b)])) == [GroupRef(a)]
    ensures NewRefs([], Elems([GroupRef(b)]) + Elems([GroupRef(a)])) == []
    ensures var recs := [Group(b, Some(a), [])] + [Group(a, None, [b, c, d])] + [];
      && (forall i :: 0 <= i < |recs| ==> RecordRanked(recs[i], r => if r == GroupRef(a) then 1 else 0, {}))
      && (Names(recs, t) <==> t == Text(GroupRef(a)) || t == Text(GroupRef(b)))
  {
    assert [a, b, c, d][0] != [a, b, c, d][1];
    assert [a, b, c, d][0] != [a, b, c, d][2];
    assert [a, b, c, d][0] != [a, b, c, d][3];
    DistinctGroups(a, b);
    DistinctGroups(a, c);
    DistinctGroups(a, d);
    var recs := [Group(b, Some(a), [])] + [Group(a, None, [b, c, d])] + [];
    assert recs[1] == Group(a, None, [b, c, d]);
  }

  /** The principal inherits team-b and team-a, and not the siblings
      team-c and team-d, which only appear as children of team-a. */
  lemma SharedParent(dir: Directory, user: string, a: string, b: string, c: string, d: string, t: string)
    requires SharedParentFixture(dir, user, a, b, c, d) && KindOf(t) != Some(UserKind)
    ensures HasLink(dir, user, t, []) == Success(Outcome(t == Text(GroupRef(a)) || t == Text(GroupRef(b)),
      [MemberRound(user, [Group(b, Some(a), [])]),
       ParentRound([GroupRef(b)], [Group(a, None, [b, c, d])]),
       ParentRound([GroupRef(a)], [])], []))
  {
    var ga, gb, ra, rb := Group(a, None, [b, c, d]), Group(b, Some(a), []), GroupRef(a), GroupRef(b);
    ParentOfOne(dir, rb);
    ParentOfOne(dir, ra);
    SharedParentFacts(a, b, c, d, t);
    AcyclicTwo(dir, user, t, [gb], [rb], [ga], [ra], [], r => if r == ra then 1 else 0);
  }

  // role-manager.test.ts:283 and :322: the principal belongs to team-c and
  // team-d, whose parents are team-a and team-b; the catalog answers only
  // the batched parent query over both.

  predicate TwoParentsFixture(dir: Directory, user: string, a: string, b: string, c: string, d: string) {
    && AllDistinct([a, b, c, d]) && KindOf(user) == Some(UserKind)
    && MemberOf(dir, user) == [Group(c, Some(a), []), Group(d, Some(b), [])]
    && ParentOf(dir, [GroupRef(c), GroupRef(d)]) == [Group(a, None, [c]), Group(b, None, [d])]
    && ParentOf(dir, [GroupRef(a), GroupRef(b)]) == []
  }

  lemma TwoParentsDistinct(a: string, b: string, c: string, d: string)
    requires AllDistinct([a, b, c, d])
    ensures a != b && a != c && a != d && b != c && b != d && c != d
  {
    var names := [a, b, c, d];
    assert names[0] != names[1] && names[0] != names[2] && names[0] != names[3];
    assert names[1] != names[2] && names[1] != names[3] && names[2] != names[3];
  }

  lemma TwoParentsFrontiers(a: string, b: string, c: string, d: string)
    requires a != b && a != c && a != d && b != c && b != d && c != d
    ensures NewRefs([Group(c, Some(a), []), Group(d, Some(b), [])], {}) == [GroupRef(c), GroupRef(d)]
    ensures NewRefs([Group(a, None, [c]), Group(b, None, [d])], Elems([GroupRef(c), GroupRef(d)])) == [GroupRef(a), GroupRef(b)]
    ensures NewRefs([], Elems([GroupRef(c), GroupRef(d)]) + Elems([GroupRef(a), GroupRef(b)])) == []
  {
    DistinctGroups(a, b); DistinctGroups(a, c); DistinctGroups(a, d);
    DistinctGroups(b, c); DistinctGroups(b, d); DistinctGroups(c, d);
    var ga, gb, gc, gd := Group(a, None, [c]), Group(b, None, [d]), Group(c, Some(a), []), Group(d, Some(b), []);
    var ra, rb, rc, rd := GroupRef(a), GroupRef(b), GroupRef(c), GroupRef(d);
    assert [gc, gd][1..] == [gd] && [ga, gb][1..] == [gb];
    assert {} + {rc} == {rc};
    assert NewRefs([gd], {rc}) == [rd];
    assert [rc] + [rd] == [rc, rd];
    assert NewRefs([gb], Elems([rc, rd]) + {ra}) == [rb];
    assert [ra] + [rb] == [ra, rb];
  }

  /** The rank of the fixture: the parents above their children. */
  function TwoParentsRank(a: string, b: string): Ref -> int {
    r => if r == GroupRef(a) || r == GroupRef(b) then 1 else 0
  }

  lemma TwoParentsRanked(a: string, b: string, c: string, d: string)
    requires a != c && a != d && b != c && b != d
    ensures var recs := [Group(c, Some(a), []), Group(d, Some(b), [])] + [Group(a, None, [c]), Group(b, None, [d])] + [];
      forall i :: 0 <= i < |recs| ==> RecordRanked(recs[i], TwoParentsRank(a, b), {})
  {
    DistinctGroups(a, c); DistinctGroups(a, d);
    DistinctGroups(b, c); DistinctGroups(b, d);
    var rank := TwoParentsRank(a, b);
    var ga, gb, gc, gd := Group(a, None, [c]), Group(b, None, [d]), Group(c, Some(a), []), Group(d, Some(b), []);
    assert RecordRanked(ga, rank, {});
    assert RecordRanked(gb, rank, {});
    assert RecordRanked(gc, rank, {});
    assert RecordRanked(gd, rank, {});
    var recs := [gc, gd] + [ga, gb] + [];
    assert recs == [gc, gd, ga, gb];
  }

  lemma TwoParentsNames(a: string, b: string, c: string, d: string, t: string)
    ensures var recs := [Group(c, Some(a), []), Group(d, Some(b), [])] + [Group(a, None, [c]), Group(b, None, [d])] + [];
      Names(recs, t) <==> t in [Text(GroupRef(a)), Text(GroupRef(b)), Text(GroupRef(c)), Text(GroupRef(d))]
  {
    var recs := [Group(c, Some(a), []), Group(d, Some(b), [])] + [Group(a, None, [c]), Group(b, None, [d])] + [];
    assert recs == [Group(c, Some(a), []), Group(d, Some(b), []), Group(a, None, [c]), Group(b, None, [d])];
    var texts := [Text(GroupRef(a)), Text(GroupRef(b)), Text(GroupRef(c)), Text(GroupRef(d))];
    if t in texts {
      var i :| 0 <= i < 4 && texts[i] == t;
      assert recs[(i + 2) % 4] in recs && Text(recs[(i + 2) % 4].Id()) == t;
    }
  }

  /** The second query of the fixture asks for the parents of both groups
      at once. */
  lemma TwoParentsQuery(c: string, d: string, answer: seq<GroupRec>)
    ensures ParentRound([GroupRef(c), GroupRef(d)], answer).Sent()
            == Query(ParentOfAny(["group:default/" + c, "group:default/" + d]), Projection)
  {
    var texts := Texts([GroupRef(c), GroupRef(d)]);
    assert texts == [Text(GroupRef(c)), Text(GroupRef(d))];
  }

  /** The principal inherits its two groups and their two parents, found
      by one batched parent query that names team-c then team-d, and
      nothing else (not team-e). */
  lemma TwoParents(dir: Directory, user: string, a: string, b: string, c: string, d: string, t: string)
    requires TwoParentsFixture(dir, user, a, b, c, d) && KindOf(t) != Some(UserKind)
    ensures HasLink(dir, user, t, []) == Success(Outcome(
      t in [Text(GroupRef(a)), Text(GroupRef(b)), Text(GroupRef(c)), Text(GroupRef(d))],
      [MemberRound(user, [Group(c, Some(a), []), Group(d, Some(b), [])]),
       ParentRound([GroupRef(c), GroupRef(d)], [Group(a, None, [c]), Group(b, None, [d])]),
       ParentRound([GroupRef(a), GroupRef(b)], [])], []))
    ensures HasLink(dir, user, t, []).value.rounds[1].Sent()
            == Query(ParentOfAny(["group:default/" + c, "group:default/" + d]), Projection)
  {
    var ga, gb, gc, gd := Group(a, None, [c]), Group(b, None, [d]), Group(c, Some(a), []), Group(d, Some(b), []);
    var ra, rb, rc, rd := GroupRef(a), GroupRef(b), GroupRef(c), GroupRef(d);
    TwoParentsDistinct(a, b, c, d);
    TwoParentsFrontiers(a, b, c, d);
    TwoParentsRanked(a, b, c, d);
    TwoParentsNames(a, b, c, d, t);
    AcyclicTwo(dir, user, t, [gc, gd], [rc, rd], [ga, gb], [ra, rb], [], TwoParentsRank(a, b));
    TwoParentsQuery(c, d, [ga, gb]);
  }

  // role-manager.test.ts:362: team-a and team-b name each other as parent;
  // the principal belongs to team-b.

  predicate MutualParentsFixture(dir: Directory, user: string, a: string, b: string) {
    && a != b && KindOf(user) == Some(UserKind)
    && MemberOf(dir, user) == [Group(b, Some(a), [])]
    && ParentsOf(dir, GroupRef(b)) == [Group(a, Some(b), [b])]
    && ParentsOf(dir, GroupRef(a)) == []
  }

  lemma MutualParentsFacts(a: string, b: string)
    requires a != b
    ensures NewRefs([Group(b, Some(a), [])], {}) == [GroupRef(b)]
    ensures NewRefs([Group(a, Some(b), [b])], Elems([GroupRef(b)])) == [GroupRef(a)]
    ensures NewRefs([], Elems([GroupRef(b)]) + Elems([GroupRef(a)])) == []
    ensures var recs := [Group(b, Some(a), [])] + [Group(a, Some(b), [b])] + [];
      var ring := [GroupRef(a), GroupRef(b), GroupRef(a)];
      && Graph.IsPath(FieldEdges(RecSet(recs)), ring)
      && (forall i :: 0 <= i < |recs| ==> RecordRanked(recs[i], r => 0, Elems(ring)))
      && Elems(ring) == {GroupRef(a), GroupRef(b)}
  {
    DistinctGroups(a, b);
    var ga, gb := Group(a, Some(b), [b]), Group(b, Some(a), []);
    var recs := [gb] + [ga] + [];
    assert recs == [gb, ga];
    assert ga in RecSet(recs) && gb in RecSet(recs);
    var ring := [GroupRef(a), GroupRef(b), GroupRef(a)];
    assert (ring[0], ring[1]) in FieldEdges(RecSet(recs));
    assert (ring[1], ring[2]) in FieldEdges(RecSet(recs));
  }

  /** Every resolution for the principal meets the cycle: whatever the
      target, even team-b, the principal's own group, the answer is false
      and the one warning lists team-a and team-b and names the target. */
  lemma MutualParents(dir: Directory, user: string, a: string, b: string, t: string)
    requires MutualParentsFixture(dir, user, a, b) && KindOf(t) != Some(UserKind)
    ensures HasLink(dir, user, t, []) == Success(Outcome(false,
      [MemberRound(user, [Group(b, Some(a), [])]),
       ParentRound([GroupRef(b)], [Group(a, Some(b), [b])]),
       ParentRound([GroupRef(a)], [])],
      [CycleWarning({{GroupRef(a), GroupRef(b)}}, t)]))
  {
    var ga, gb, ra, rb := Group(a, Some(b), [b]), Group(b, Some(a), []), GroupRef(a), GroupRef(b);
    ParentOfOne(dir, rb);
    ParentOfOne(dir, ra);
    MutualParentsFacts(a, b);
    CyclicTwo(dir, user, t, [gb], [rb], [ga], [ra], [], r => 0, [ra, rb, ra]);
  }

  /** Five distinct names, pair by pair. */
  lemma FiveDistinct(a: string, b: string, c: string, d: string, e: string)
    requires AllDistinct([a, b, c, d, e])
    ensures a != b && a != c && a != d && a != e && b != c && b != d && b != e
    ensures c != d && c != e && d != e
  {
    var names := [a, b, c, d, e];
    assert names[0] != names[1] && names[0] != names[2] && names[0] != names[3] && names[0] != names[4];
    assert names[1] != names[2] && names[1] != names[3] && names[1] != names[4];
    assert names[2] != names[3] && names[2] != names[4] && names[3] != names[4];
  }

  /** A pair of references as a JSON array. */
  lemma JsonPair(x: Ref, y: Ref)
    ensures JsonRefs([x, y]) == "[\"" + Text(x) + "\",\"" + Text(y) + "\"]"
  {
    var qx, qy := "\"" + Text(x) + "\"", "\"" + Text(y) + "\"";
    var quoted := seq(2, i requires 0 <= i < 2 => "\"" + Text([x, y][i]) + "\"");
    assert quoted == [qx, qy];
    assert Join(quoted) == qx + "," + qy by {
      assert quoted[1..] == [qy];
    }
  }

  /** A listing of one cycle as a JSON array. */
  lemma JsonSingle(cycle: seq<Ref>)
    ensures JsonCycles([cycle]) == "[" + JsonRefs(cycle) + "]"
  {
    var arrays := seq(1, i requires 0 <= i < 1 => JsonRefs([cycle][i]));
    assert arrays == [JsonRefs(cycle)];
  }

  /** A warning with one cycle is listed by any walk through that cycle's
      members. */
  lemma ListsSingle(cycle: seq<Ref>, t: string)
    ensures Lists([cycle], CycleWarning({Elems(cycle)}, t))
  {
    var listing, w := [cycle], CycleWarning({Elems(cycle)}, t);
    forall c | c in w.cycles
      ensures exists i :: 0 <= i < |listing| && Elems(listing[i]) == c
    {
      assert Elems(listing[0]) == c;
    }
  }

  /** The warning of the fixture, with its one cycle listed team-a first,
      reads as logged: the JSON array `[["group:default/a","group:default/b"]]`
      between the fixed prefix and remedy, then the target. */
  lemma MutualParentsMessage(a: string, b: string, t: string)
    ensures var w := CycleWarning({{GroupRef(a), GroupRef(b)}}, t);
      && Lists([[GroupRef(a), GroupRef(b)]], w)
      && Message([[GroupRef(a), GroupRef(b)]], w)
         == MessagePrefix + ("[" + ("[\"" + Text(GroupRef(a)) + "\",\"" + Text(GroupRef(b)) + "\"]") + "]") + MessageRemedy + t
  {
    var ra, rb := GroupRef(a), GroupRef(b);
    assert Elems([ra, rb]) == {ra, rb};
    ListsSingle([ra, rb], t);
    JsonPair(ra, rb);
    JsonSingle([ra, rb]);
  }

  // role-manager.test.ts:410: team-c, the principal's group, has parent
  // team-b, and team-a and team-b name each other as parent.

  predicate CycleAboveChainFixture(dir: Directory, user: string, a: string, b: string, c: string) {
    && a != b && a != c && b != c && KindOf(user) == Some(UserKind)
    && MemberOf(dir, user) == [Group(c, Some(b), [])]
    && ParentsOf(dir, GroupRef(c)) == [Group(b, Some(a), [])]
    && ParentsOf(dir, GroupRef(b)) == [Group(a, Some(b), [b])]
    && ParentsOf(dir, GroupRef(a)) == []
  }

  lemma CycleAboveChainFrontiers(a: string, b: string, c: string)
    requires a != b && a != c && b != c
    ensures NewRefs([Group(c, Some(b), [])], {}) == [GroupRef(c)]
    ensures NewRefs([Group(b, Some(a), [])], Elems([GroupRef(c)])) == [GroupRef(b)]
    ensures NewRefs([Group(a, Some(b), [b])], Elems([GroupRef(c)]) + Elems([GroupRef(b)])) == [GroupRef(a)]
    ensures NewRefs([], Elems([GroupRef(c)]) + Elems([GroupRef(b)]) + Elems([GroupRef(a)])) == []
  {
    DistinctGroups(a, b); DistinctGroups(a, c); DistinctGroups(b, c);
  }

  lemma CycleAboveChainRing(a: string, b: string, c: string)
    ensures var recs := [Group(c, Some(b), [])] + [Group(b, Some(a), [])] + [Group(a, Some(b), [b])] + [];
      var ring := [GroupRef(a), GroupRef(b), GroupRef(a)];
      && Graph.IsPath(FieldEdges(RecSet(recs)), ring)
      && Elems(ring) == {GroupRef(a), GroupRef(b)}
  {
    var ga, gb := Group(a, Some(b), [b]), Group(b, Some(a), []);
    var recs := [Group(c, Some(b), [])] + [gb] + [ga] + [];
    assert recs[1] == gb && recs[2] == ga;
    assert ga in RecSet(recs) && gb in RecSet(recs);
    var ring := [GroupRef(a), GroupRef(b), GroupRef(a)];
    assert (ring[0], ring[1]) in FieldEdges(RecSet(recs));
    assert (ring[1], ring[2]) in FieldEdges(RecSet(recs));
  }

  lemma CycleAboveChainRanked(a: string, b: string, c: string)
    requires a != c && b != c
    ensures var recs := [Group(c, Some(b), [])] + [Group(b, Some(a), [])] + [Group(a, Some(b), [b])] + [];
      forall i :: 0 <= i < |recs| ==>
        RecordRanked(recs[i], r => if r == GroupRef(c) then 0 else 1, {GroupRef(a), GroupRef(b)})
  {
    DistinctGroups(a, c); DistinctGroups(b, c);
    var rank: Ref -> int, level := r => if r == GroupRef(c) then 0 else 1, {GroupRef(a), GroupRef(b)};
    var ga, gb, gc := Group(a, Some(b), [b]), Group(b, Some(a), []), Group(c, Some(b), []);
    assert RecordRanked(ga, rank, level);
    assert RecordRanked(gb, rank, level);
    assert RecordRanked(gc, rank, level);
    var recs := [gc] + [gb] + [ga] + [];
    assert recs == [gc, gb, ga];
  }

  /** A cycle above the principal's group blocks every resolution for the
      principal, team-c included: the answer is false and the warning
      lists team-a and team-b only. */
  lemma CycleAboveChain(dir: Directory, user: string, a: string, b: string, c: string, t: string)
    requires CycleAboveChainFixture(dir, user, a, b, c) && KindOf(t) != Some(UserKind)
    ensures HasLink(dir, user, t, []) == Success(Outcome(false,
      [MemberRound(user, [Group(c, Some(b), [])]),
       ParentRound([GroupRef(c)], [Group(b, Some(a), [])]),
       ParentRound([GroupRef(b)], [Group(a, Some(b), [b])]),
       ParentRound([GroupRef(a)], [])],
      [CycleWarning({{GroupRef(a), GroupRef(b)}}, t)]))
  {
    var ga, gb, gc := Group(a, Some(b), [b]), Group(b, Some(a), []), Group(c, Some(b), []);
    var ra, rb, rc := GroupRef(a), GroupRef(b), GroupRef(c);
    ParentOfOne(dir, rc);
    ParentOfOne(dir, rb);
    ParentOfOne(dir, ra);
    CycleAboveChainFrontiers(a, b, c);
    CycleAboveChainRing(a, b, c);
    CycleAboveChainRanked(a, b, c);
    CyclicThree(dir, user, t, [gc], [rc], [gb], [rb], [ga], [ra], [], r => if r == rc then 0 else 1, [ra, rb, ra]);
  }

  // role-manager.test.ts:469: the principal belongs to team-c and team-d;
  // team-a and team-c name each other as parent, team-b is the parent of
  // team-d, and the catalog answers only the batched parent query.

  predicate CycleInTreeFixture(dir: Directory, user: string, a: string, b: string, c: string, d: string, m: string) {
    && AllDistinct([a, b, c, d, m]) && KindOf(user) == Some(UserKind)
    && MemberOf(dir, user) == [Group(c, Some(a), [m]), Group(d, Some(b), [m])]
    && ParentOf(dir, [GroupRef(c), GroupRef(d)]) == [Group(a, Some(c), [c]), Group(b, None, [d])]
    && ParentOf(dir, [GroupRef(a), GroupRef(b)]) == []
  }

  lemma CycleInTreeFrontiers(a: string, b: string, c: string, d: string, m: string)
    requires AllDistinct([a, b, c, d, m])
    ensures NewRefs([Group(c, Some(a), [m]), Group(d, Some(b), [m])], {}) == [GroupRef(c), GroupRef(d)]
    ensures NewRefs([Group(a, Some(c), [c]), Group(b, None, [d])], Elems([GroupRef(c), GroupRef(d)]))
            == [GroupRef(a), GroupRef(b)]
    ensures NewRefs([], Elems([GroupRef(c), GroupRef(d)]) + Elems([GroupRef(a), GroupRef(b)])) == []
  {
    FiveDistinct(a, b, c, d, m);
    DistinctGroups(a, b); DistinctGroups(a, c); DistinctGroups(a, d);
    DistinctGroups(b, c); DistinctGroups(b, d); DistinctGroups(c, d);
    var ga, gb, gc, gd := Group(a, Some(c), [c]), Group(b, None, [d]), Group(c, Some(a), [m]), Group(d, Some(b), [m]);
    var ra, rb, rc, rd := GroupRef(a), GroupRef(b), GroupRef(c), GroupRef(d);
    assert [gc, gd][1..] == [gd] && [ga, gb][1..] == [gb];
    assert {} + {rc} == {rc};
    assert NewRefs([gd], {rc}) == [rd];
    assert [rc] + [rd] == [rc, rd];
    assert NewRefs([gb], Elems([rc, rd]) + {ra}) == [rb];
    assert [ra] + [rb] == [ra, rb];
  }

  /** The rank of the fixture: the member name lowest, the cycle and team-d
      above it, team-b on top. */
  function CycleInTreeRank(b: string, m: string): Ref -> int {
    r => if r == GroupRef(m) then 0 else if r == GroupRef(b) then 2 else 1
  }

  lemma CycleInTreeRing(a: string, b: string, c: string, d: string, m: string)
    requires a != c
    ensures var recs := [Group(c, Some(a), [m]), Group(d, Some(b), [m])] + [Group(a, Some(c), [c]), Group(b, None, [d])] + [];
      var ring := [GroupRef(a), GroupRef(c), GroupRef(a)];
      && Graph.IsPath(FieldEdges(RecSet(recs)), ring)
      && Elems(ring) == {GroupRef(a), GroupRef(c)}
  {
    var ga, gc := Group(a, Some(c), [c]), Group(c, Some(a), [m]);
    var recs := [Group(c, Some(a), [m]), Group(d, Some(b), [m])] + [Group(a, Some(c), [c]), Group(b, None, [d])] + [];
    assert recs[0] == gc && recs[2] == ga;
    assert ga in RecSet(recs) && gc in RecSet(recs);
    var ring := [GroupRef(a), GroupRef(c), GroupRef(a)];
    assert (ring[0], ring[1]) in FieldEdges(RecSet(recs));
    assert (ring[1], ring[2]) in FieldEdges(RecSet(recs));
  }

  lemma CycleInTreeRanked(a: string, b: string, c: string, d: string, m: string)
    requires AllDistinct([a, b, c, d, m])
    ensures var recs := [Group(c, Some(a), [m]), Group(d, Some(b), [m])] + [Group(a, Some(c), [c]), Group(b, None, [d])] + [];
      forall i :: 0 <= i < |recs| ==> RecordRanked(recs[i], CycleInTreeRank(b, m), {GroupRef(a), GroupRef(c)})
  {
    FiveDistinct(a, b, c, d, m);
    DistinctGroups(a, b); DistinctGroups(a, m); DistinctGroups(b, c);
    DistinctGroups(b, d); DistinctGroups(b, m); DistinctGroups(c, m); DistinctGroups(d, m);
    var rank, level := CycleInTreeRank(b, m), {GroupRef(a), GroupRef(c)};
    var ga, gb, gc, gd := Group(a, Some(c), [c]), Group(b, None, [d]), Group(c, Some(a), [m]), Group(d, Some(b), [m]);
    assert RecordRanked(ga, rank, level);
    assert RecordRanked(gb, rank, level);
    assert RecordRanked(gc, rank, level);
    assert RecordRanked(gd, rank, level);
    var recs := [gc, gd] + [ga, gb] + [];
    assert recs == [gc, gd, ga, gb];
  }

  /** The cycle between team-a and team-c blocks the resolution, and the
      warning lists that cycle only, not the sound branch through team-b. */
  lemma CycleInTree(dir: Directory, user: string, a: string, b: string, c: string, d: string, m: string, t: string)
    requires CycleInTreeFixture(dir, user, a, b, c, d, m) && KindOf(t) != Some(UserKind)
    ensures HasLink(dir, user, t, []) == Success(Outcome(false,
      [MemberRound(user, [Group(c, Some(a), [m]), Group(d, Some(b), [m])]),
       ParentRound([GroupRef(c), GroupRef(d)], [Group(a, Some(c), [c]), Group(b, None, [d])]),
       ParentRound([GroupRef(a), GroupRef(b)], [])],
      [CycleWarning({{GroupRef(a), GroupRef(c)}}, t)]))
  {
    var ga, gb, gc, gd := Group(a, Some(c), [c]), Group(b, None, [d]), Group(c, Some(a), [m]), Group(d, Some(b), [m]);
    var ra, rb, rc, rd := GroupRef(a), GroupRef(b), GroupRef(c), GroupRef(d);
    CycleInTreeFrontiers(a, b, c, d, m);
    FiveDistinct(a, b, c, d, m);
    CycleInTreeRing(a, b, c, d, m);
    CycleInTreeRanked(a, b, c, d, m);
    CyclicTwo(dir, user, t, [gc, gd], [rc, rd], [ga, gb], [ra, rb], [], CycleInTreeRank(b, m), [ra, rc, ra]);
  }

  // role-manager.test.ts:519: one catalog for two principals. The root
  // group is the parent of team-a and team-b; team-a and team-c name each
  // other (team-c as parent of team-a only through its children), team-d
  // has parent team-b. Mike belongs to team-c, tom to team-d.

  predicate NeighbourFixture(dir: Directory, mike: string, tom: string,
                             root: string, a: string, b: string, c: string, d: string) {
    && AllDistinct([root, a, b, c, d])
    && KindOf(mike) == Some(UserKind) && KindOf(tom) == Some(UserKind)
    && MemberOf(dir, mike) == [Group(c, Some(a), [a])]
    && MemberOf(dir, tom) == [Group(d, Some(b), [])]
    && ParentsOf(dir, GroupRef(c)) == [Group(a, Some(root), [c])]
    && ParentsOf(dir, GroupRef(d)) == [Group(b, Some(root), [d])]
    && ParentsOf(dir, GroupRef(a)) == [Group(root, None, [a, b])]
    && ParentsOf(dir, GroupRef(b)) == [Group(root, None, [a, b])]
    && ParentsOf(dir, GroupRef(root)) == []
  }

  /** The two climbs: three references each, one per level. */
  lemma NeighbourFrontiers(root: string, x: string, y: string)
    requires root != x && root != y && x != y
    ensures NewRefs([Group(y, Some(x), [])], {}) == [GroupRef(y)]
    ensures NewRefs([Group(y, Some(x), [x])], {}) == [GroupRef(y)]
    ensures NewRefs([Group(x, Some(root), [y])], Elems([GroupRef(y)])) == [GroupRef(x)]
    ensures NewRefs([Group(root, None, [x, y])], Elems([GroupRef(y)]) + Elems([GroupRef(x)])) == [GroupRef(root)]
    ensures NewRefs([Group(root, None, [y, x])], Elems([GroupRef(y)]) + Elems([GroupRef(x)])) == [GroupRef(root)]
    ensures NewRefs([], Elems([GroupRef(y)]) + Elems([GroupRef(x)]) + Elems([GroupRef(root)])) == []
  {
    DistinctGroups(root, x); DistinctGroups(root, y); DistinctGroups(x, y);
  }

  lemma NeighbourRing(root: string, a: string, b: string, c: string)
    ensures var recs := [Group(c, Some(a), [a])] + [Group(a, Some(root), [c])] + [Group(root, None, [a, b])] + [];
      var ring := [GroupRef(a), GroupRef(c), GroupRef(a)];
      && Graph.IsPath(FieldEdges(RecSet(recs)), ring)
      && Elems(ring) == {GroupRef(a), GroupRef(c)}
  {
    var ga, gc := Group(a, Some(root), [c]), Group(c, Some(a), [a]);
    var recs := [gc] + [ga] + [Group(root, None, [a, b])] + [];
    assert recs[0] == gc;
    assert gc in RecSet(recs);
    var ring := [GroupRef(a), GroupRef(c), GroupRef(a)];
    assert (ring[0], ring[1]) in FieldEdges(RecSet(recs));
    assert (ring[1], ring[2]) in FieldEdges(RecSet(recs));
  }

  lemma NeighbourMikeRanked(root: string, a: string, b: string, c: string)
    requires root != a && root != b && root != c
    ensures var recs := [Group(c, Some(a), [a])] + [Group(a, Some(root), [c])] + [Group(root, None, [a, b])] + [];
      forall i :: 0 <= i < |recs| ==>
        RecordRanked(recs[i], r => if r == GroupRef(root) then 1 else 0, {GroupRef(a), GroupRef(c)})
  {
    DistinctGroups(root, a); DistinctGroups(root, b); DistinctGroups(root, c);
    var rank: Ref -> int, level := r => if r == GroupRef(root) then 1 else 0, {GroupRef(a), GroupRef(c)};
    var ga, gc, gr := Group(a, Some(root), [c]), Group(c, Some(a), [a]), Group(root, None, [a, b]);
    assert RecordRanked(ga, rank, level);
    assert RecordRanked(gc, rank, level);
    assert RecordRanked(gr, rank, level);
    var recs := [gc] + [ga] + [gr] + [];
    assert recs == [gc, ga, gr];
  }

  /** Mike's resolution meets the cycle between team-a and team-c: the
      answer is false whatever the target, team-a included. */
  lemma NeighbourMike(dir: Directory, mike: string, tom: string,
                      root: string, a: string, b: string, c: string, d: string, t: string)
    requires NeighbourFixture(dir, mike, tom, root, a, b, c, d) && KindOf(t) != Some(UserKind)
    ensures HasLink(dir, mike, t, []) == Success(Outcome(false,
      [MemberRound(mike, [Group(c, Some(a), [a])]),
       ParentRound([GroupRef(c)], [Group(a, Some(root), [c])]),
       ParentRound([GroupRef(a)], [Group(root, None, [a, b])]),
       ParentRound([GroupRef(root)], [])],
      [CycleWarning({{GroupRef(a), GroupRef(c)}}, t)]))
  {
    var ga, gc, gr := Group(a, Some(root), [c]), Group(c, Some(a), [a]), Group(root, None, [a, b]);
    var ra, rc, rr := GroupRef(a), GroupRef(c), GroupRef(root);
    FiveDistinct(root, a, b, c, d);
    ParentOfOne(dir, rc);
    ParentOfOne(dir, ra);
    ParentOfOne(dir, rr);
    NeighbourFrontiers(root, a, c);
    NeighbourRing(root, a, b, c);
    NeighbourMikeRanked(root, a, b, c);
    CyclicThree(dir, mike, t, [gc], [rc], [ga], [ra], [gr], [rr], [],
                r => if r == rr then 1 else 0, [ra, rc, ra]);
  }

  /** The rank of tom's climb: team-d, then team-b, then the root. */
  function NeighbourTomRank(root: string, b: string): Ref -> int {
    r => if r == GroupRef(root) then 2 else if r == GroupRef(b) then 1 else 0
  }

  lemma NeighbourTomRecords(root: string, a: string, b: string, d: string, t: string)
    requires root != a && root != b && root != d && a != b && b != d
    ensures var recs := [Group(d, Some(b), [])] + [Group(b, Some(root), [d])] + [Group(root, None, [a, b])] + [];
      && (forall i :: 0 <= i < |recs| ==> RecordRanked(recs[i], NeighbourTomRank(root, b), {}))
      && (Names(recs, t) <==> t in [Text(GroupRef(d)), Text(GroupRef(b)), Text(GroupRef(root))])
  {
    DistinctGroups(root, a); DistinctGroups(root, b); DistinctGroups(root, d);
    DistinctGroups(a, b); DistinctGroups(b, d);
    var rank := NeighbourTomRank(root, b);
    var gd, gb, gr := Group(d, Some(b), []), Group(b, Some(root), [d]), Group(root, None, [a, b]);
    assert RecordRanked(gd, rank, {});
    assert RecordRanked(gb, rank, {});
    assert RecordRanked(gr, rank, {});
    var recs := [gd] + [gb] + [gr] + [];
    assert recs == [gd, gb, gr];
    var texts := [Text(GroupRef(d)), Text(GroupRef(b)), Text(GroupRef(root))];
    assert Names(recs, t) <==> t in texts by {
      if t in texts {
        var i :| 0 <= i < 3 && texts[i] == t;
        assert recs[i] in recs && Text(recs[i].Id()) == t;
      }
    }
  }

  /** Tom's resolution never reaches the cycle next door: tom inherits
      team-d, team-b and the root, team-b included, and no warning is
      logged. */
  lemma NeighbourTom(dir: Directory, mike: string, tom: string,
                     root: string, a: string, b: string, c: string, d: string, t: string)
    requires NeighbourFixture(dir, mike, tom, root, a, b, c, d) && KindOf(t) != Some(UserKind)
    ensures HasLink(dir, tom, t, []) == Success(Outcome(
      t in [Text(GroupRef(d)), Text(GroupRef(b)), Text(GroupRef(root))],
      [MemberRound(tom, [Group(d, Some(b), [])]),
       ParentRound([GroupRef(d)], [Group(b, Some(root), [d])]),
       ParentRound([GroupRef(b)], [Group(root, None, [a, b])]),
       ParentRound([GroupRef(root)], [])], []))
  {
    var gb, gd, gr := Group(b, Some(root), [d]), Group(d, Some(b), []), Group(root, None, [a, b]);
    var rb, rd, rr := GroupRef(b), GroupRef(d), GroupRef(root);
    FiveDistinct(root, a, b, c, d);
    ParentOfOne(dir, rd);
    ParentOfOne(dir, rb);
    ParentOfOne(dir, rr);
    NeighbourFrontiers(root, b, d);
    NeighbourTomRecords(root, a, b, d, t);
    AcyclicThree(dir, tom, t, [gd], [rd], [gb], [rb], [gr], [rr], [], NeighbourTomRank(root, b));
  }
}
