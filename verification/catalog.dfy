/** The entity directory (the catalog) as the resolver sees it: group
    records projected to the five fields it asks for, the two queries it
    issues, and a finite directory value that answers them. */
module Catalog {
  import opened Wrappers
  import opened Refs
  import Graph

  /** A group entity projected to name, namespace, `spec.parent` and
      `spec.children`. An absent `children` field is the empty list. */
  datatype GroupRec = GroupRec(namespace: string, name: string, parent: Option<string>, children: seq<string>) {
    /** The reference of the group itself. */
    function Id(): Ref {
      Ref(GroupKind, namespace, name)
    }
  }

  /** The records of a sequence, as a set. */
  function RecSet(recs: seq<GroupRec>): set<GroupRec> {
    set g | g in recs
  }

  /** The references of a sequence of records, as a set. */
  function Ids(recs: seq<GroupRec>): set<Ref> {
    set g | g in recs :: g.Id()
  }

  /** The references of a sequence of records, in order. */
  function IdSeq(recs: seq<GroupRec>): (r: seq<Ref>)
    ensures |r| == |recs|
    ensures forall i :: 0 <= i < |recs| ==> r[i] == recs[i].Id()
  {
    if recs == [] then [] else [recs[0].Id()] + IdSeq(recs[1..])
  }

  /** The fields every query projects the matching entities to. */
  const Projection: seq<string> :=
    ["metadata.name", "kind", "metadata.namespace", "spec.parent", "spec.children"]

  /** The two filters the resolver uses: groups that have one of the given
      entities as a member, and entities that are the parent of one of the
      given groups. */
  datatype Filter =
    | MembersInclude(kind: string, members: seq<string>)
    | ParentOfAny(refs: seq<string>)

  datatype Query = Query(filter: Filter, fields: seq<string>)

  /** The text forms of a sequence of references, in order. */
  function Texts(rs: seq<Ref>): (t: seq<string>)
    ensures |t| == |rs|
    ensures forall i :: 0 <= i < |rs| ==> t[i] == Text(rs[i])
  {
    if rs == [] then [] else [Text(rs[0])] + Texts(rs[1..])
  }

  /** A finite directory: the groups each principal belongs to, and the
      parent groups of each group, as the catalog would answer them. The two
      need not agree with the records' own parent and children fields. */
  datatype Directory = Directory(members: map<string, seq<GroupRec>>, parents: map<Ref, seq<GroupRec>>)

  /** The groups that list `principal` as a member. */
  function MemberOf(d: Directory, principal: string): seq<GroupRec> {
    if principal in d.members then d.members[principal] else []
  }

  /** The parent groups the directory reports for one group. */
  function ParentsOf(d: Directory, r: Ref): seq<GroupRec> {
    if r in d.parents then d.parents[r] else []
  }

  /** The parent relation the directory answers with, child to parent. */
  function ParentEdges(d: Directory): Graph.Edges {
    set a, g | a in d.parents && g in d.parents[a] :: (a, g.Id())
  }

  /** The parent records the directory reports for the members of `s`. */
  function ParentRecords(d: Directory, s: set<Ref>): set<GroupRec> {
    set r, g | r in s && r in d.parents && g in d.parents[r] :: g
  }

  /** One batched parent query over a whole frontier: the parents of each
      frontier member, in frontier order. */
  function ParentOf(d: Directory, frontier: seq<Ref>): (rs: seq<GroupRec>)
    ensures RecSet(rs) == ParentRecords(d, Elems(frontier))
    ensures Ids(rs) == Graph.Succ(ParentEdges(d), Elems(frontier))
  {
    if frontier == [] then []
    else
      var first, rest := ParentsOf(d, frontier[0]), ParentOf(d, frontier[1..]);
      assert Elems(frontier) == {frontier[0]} + Elems(frontier[1..]);
      SuccOfOne(d, frontier[0]);
      SuccUnion(ParentEdges(d), {frontier[0]}, Elems(frontier[1..]));
      assert Ids(first + rest) == Ids(first) + Ids(rest);
      assert RecSet(first + rest) == RecSet(first) + RecSet(rest);
      assert RecSet(first) == ParentRecords(d, {frontier[0]});
      ParentRecordsUnion(d, {frontier[0]}, Elems(frontier[1..]));
      first + rest
  }

  lemma ParentRecordsUnion(d: Directory, s: set<Ref>, t: set<Ref>)
    ensures ParentRecords(d, s + t) == ParentRecords(d, s) + ParentRecords(d, t)
  {
  }

  lemma SuccOfOne(d: Directory, r: Ref)
    ensures Ids(ParentsOf(d, r)) == Graph.Succ(ParentEdges(d), {r})
  {
    var e := ParentEdges(d);
    forall b | b in Graph.Succ(e, {r})
      ensures b in Ids(ParentsOf(d, r))
    {
      var x :| x in e && x.0 in {r} && x.1 == b;
      var a, g :| a in d.parents && g in d.parents[a] && x == (a, g.Id());
    }
    forall b | b in Ids(ParentsOf(d, r))
      ensures b in Graph.Succ(e, {r})
    {
      var g :| g in ParentsOf(d, r) && g.Id() == b;
      assert (r, g.Id()) in e;
    }
  }

  lemma SuccUnion(e: Graph.Edges, s: set<Ref>, t: set<Ref>)
    ensures Graph.Succ(e, s + t) == Graph.Succ(e, s) + Graph.Succ(e, t)
  {
  }

  /** Every reference the directory can answer with. */
  function Universe(d: Directory): set<Ref> {
    (set p, g | p in d.members && g in d.members[p] :: g.Id())
    + (set a, g | a in d.parents && g in d.parents[a] :: g.Id())
  }

  /** What the directory answers lies in its universe. */
  lemma AnswersInUniverse(d: Directory, principal: string, frontier: seq<Ref>)
    ensures Ids(MemberOf(d, principal)) <= Universe(d)
    ensures Ids(ParentOf(d, frontier)) <= Universe(d)
  {
    forall b | b in Graph.Succ(ParentEdges(d), Elems(frontier))
      ensures b in Universe(d)
    {
      var x :| x in ParentEdges(d) && x.0 in Elems(frontier) && x.1 == b;
      var a, g :| a in d.parents && g in d.parents[a] && x == (a, g.Id());
    }
  }

  /** No reference occurs twice in `rs`. */
  predicate Distinct(rs: seq<Ref>) {
    forall i, j :: 0 <= i < j < |rs| ==> rs[i] != rs[j]
  }

  /** The references of `recs` not in `seen`, first occurrence first, each
      once: the next frontier made from one query's answer. */
  function NewRefs(recs: seq<GroupRec>, seen: set<Ref>): (r: seq<Ref>)
    ensures Elems(r) == Ids(recs) - seen
    ensures Distinct(r)
  {
    if recs == [] then []
    else
      var g := recs[0];
      assert Ids(recs) == {g.Id()} + Ids(recs[1..]);
      if g.Id() in seen then NewRefs(recs[1..], seen)
      else
        var rest := NewRefs(recs[1..], seen + {g.Id()});
        assert forall i :: 0 <= i < |rest| ==> rest[i] in Elems(rest);
        assert Elems([g.Id()] + rest) == {g.Id()} + Elems(rest);
        [g.Id()] + rest
  }

  /** When an answer names distinct, unseen groups, the next frontier lists
      all of them in the order of the answer. */
  lemma {:induction false} NewRefsInOrder(recs: seq<GroupRec>, seen: set<Ref>)
    requires Distinct(IdSeq(recs)) && Ids(recs) !! seen
    ensures NewRefs(recs, seen) == IdSeq(recs)
  {
    if recs != [] {
      var g := recs[0];
      assert g.Id() in Ids(recs);
      var tail := recs[1..];
      assert IdSeq(tail) == IdSeq(recs)[1..];
      forall h | h in tail ensures h.Id() != g.Id() {
        var k :| 0 <= k < |tail| && tail[k] == h;
        assert IdSeq(recs)[0] != IdSeq(recs)[k + 1];
      }
      assert Ids(tail) <= Ids(recs);
      NewRefsInOrder(tail, seen + {g.Id()});
    }
  }
}
