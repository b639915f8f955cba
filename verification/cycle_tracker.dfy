/** Cycle detection over the group graph built from fetched records, and the
    warning the resolver logs when it finds a cycle. */
module CycleTracker {
  import opened Refs
  import opened Catalog
  import Graph

  /** The group graph of a set of fetched records, child to parent: a record
      points at its `spec.parent`, and each of its `spec.children` points at
      the record. Bare names name groups in the default namespace. */
  function FieldEdges(recs: set<GroupRec>): Graph.Edges {
    (set g | g in recs && g.parent.Some? :: (g.Id(), GroupRef(g.parent.value)))
    + (set g, c | g in recs && c in g.children :: (GroupRef(c), g.Id()))
  }

  /** A cycle warning: the cycles found, each as the set of groups on it, and
      the group the resolution was asked about. */
  datatype Warning = CycleWarning(cycles: set<set<Ref>>, group: string)

  /** The warnings one resolution over `recs` emits: none for an acyclic
      group graph, otherwise one that lists every cycle and names `target`. */
  function Detect(recs: set<GroupRec>, target: string): (w: seq<Warning>)
    ensures w == [] <==> Graph.Acyclic(FieldEdges(recs))
    ensures w != [] ==> w == [CycleWarning(Graph.Cycles(FieldEdges(recs)), target)]
    ensures w != [] ==> forall c :: c in w[0].cycles ==> c != {}
    ensures w != [] ==> forall c, b :: c in w[0].cycles && b in c ==> Graph.OnCycle(FieldEdges(recs), b)
  {
    var e := FieldEdges(recs);
    var cycles := Graph.Cycles(e);
    Graph.CyclesEmptyIff(e);
    forall c, b | c in cycles
      ensures c != {} && (b in c ==> Graph.OnCycle(e, b))
    {
      Graph.CycleMembers(e, c, b);
    }
    if cycles == {} then [] else [CycleWarning(cycles, target)]
  }

  const MessagePrefix: string := "Detected cycle dependencies in the Group graph: "
  const MessageRemedy: string :=
    ". Admin/(catalog owner) have to fix it to make RBAC permission evaluation correct for group: "

  /** `items` joined with commas. */
  function Join(items: seq<string>): string {
    if items == [] then ""
    else if |items| == 1 then items[0]
    else items[0] + "," + Join(items[1..])
  }

  /** A list of references as a JSON array of strings. */
  function JsonRefs(rs: seq<Ref>): string {
    "[" + Join(seq(|rs|, i requires 0 <= i < |rs| => "\"" + Text(rs[i]) + "\"")) + "]"
  }

  /** A list of cycles as a JSON array of arrays. */
  function JsonCycles(listing: seq<seq<Ref>>): string {
    "[" + Join(seq(|listing|, i requires 0 <= i < |listing| => JsonRefs(listing[i]))) + "]"
  }

  /** `listing` enumerates the cycles of a warning, each cycle once. */
  ghost predicate Lists(listing: seq<seq<Ref>>, w: Warning) {
    (forall i :: 0 <= i < |listing| ==> Elems(listing[i]) in w.cycles)
    && (forall c :: c in w.cycles ==> exists i :: 0 <= i < |listing| && Elems(listing[i]) == c)
  }

  /** The logged text of a warning, given the order its cycles are listed in. */
  function Message(listing: seq<seq<Ref>>, w: Warning): string {
    MessagePrefix + JsonCycles(listing) + MessageRemedy + w.group
  }
}
