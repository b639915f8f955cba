/** The role manager's `hasLink`: does principal `name1` inherit group
    `name2` through group membership and parent groups? The catalog is the
    finite directory value `d`; the log is the list of warnings returned. */
module RoleManager {
  import opened Wrappers
  import opened Refs
  import opened Catalog
  import opened CycleTracker

  /** One catalog round trip: the query issued and the records it returned. */
  datatype Round =
    | MemberRound(principal: string, response: seq<GroupRec>)
    | ParentRound(frontier: seq<Ref>, response: seq<GroupRec>)
  {
    /** The query as sent: kind Group with `relations.hasMember`, or
        `relations.parentOf` over the frontier, projected to five fields. */
    function Sent(): Query {
      match this
      case MemberRound(p, _) => Query(MembersInclude("Group", [p]), Projection)
      case ParentRound(f, _) => Query(ParentOfAny(Texts(f)), Projection)
    }
  }

  /** What one `hasLink` call produces besides failing: its answer, the
      catalog round trips it made, and the warnings it logged. */
  datatype Outcome = Outcome(answer: bool, rounds: seq<Round>, warnings: seq<Warning>)

  datatype Error = UnsupportedDomain | NotImplemented(operation: string)

  function ErrorMessage(e: Error): string {
    match e
    case UnsupportedDomain => "domain argument is not supported."
    case NotImplemented(op) => "Method \"" + op + "\" not implemented."
  }

  /** Every record a sequence of round trips returned, in order. */
  function Fetched(rounds: seq<Round>): seq<GroupRec> {
    if rounds == [] then [] else rounds[0].response + Fetched(rounds[1..])
  }

  /** Breadth-first climb: ask for the parents of the whole frontier in one
      query, then continue with the answered groups not queried before,
      until no new group turns up. */
  function Explore(d: Directory, frontier: seq<Ref>, visited: set<Ref>): (rounds: seq<Round>)
    requires Elems(frontier) <= Universe(d)
    requires Elems(frontier) !! visited
    ensures frontier == [] <==> rounds == []
    ensures forall i :: 0 <= i < |rounds| ==> rounds[i].ParentRound? && rounds[i].frontier != []
    decreases |Universe(d) - visited|
  {
    if frontier == [] then []
    else
      var response := ParentOf(d, frontier);
      var seen := visited + Elems(frontier);
      AnswersInUniverse(d, "", frontier);
      assert frontier[0] in Elems(frontier);
      Graph.ShrinksBy(Universe(d), visited, seen, frontier[0]);
      [ParentRound(frontier, response)] + Explore(d, NewRefs(response, seen), seen)
  }

  /** Whether some record is the group whose reference text is `target`. */
  predicate Names(recs: seq<GroupRec>, target: string) {
    exists g :: g in recs && Text(g.Id()) == target
  }

  /** The search proper: fetch the principal's groups, climb to all their
      ancestors, then answer from the fetched records unless their group
      graph has a cycle, in which case answer false and warn. */
  function Resolve(d: Directory, principal: string, target: string): (out: Outcome)
    ensures |out.rounds| >= 1 && out.rounds[0] == MemberRound(principal, MemberOf(d, principal))
    ensures forall i :: 1 <= i < |out.rounds| ==> out.rounds[i].ParentRound?
    ensures out.answer ==> out.warnings == []
    ensures |out.warnings| <= 1
  {
    var roots := MemberOf(d, principal);
    AnswersInUniverse(d, principal, []);
    var rounds := [MemberRound(principal, roots)] + Explore(d, NewRefs(roots, {}), {});
    var recs := Fetched(rounds);
    var warnings := Detect(RecSet(recs), target);
    Outcome(warnings == [] && Names(recs, target), rounds, warnings)
  }

  /** `hasLink(name1, name2, ...domain)`. A domain fails the call before any
      query; a principal inherits itself; a user is nobody's ancestor. */
  function HasLink(d: Directory, name1: string, name2: string, domain: seq<string>): (r: Result<Outcome, Error>)
    ensures r.Failure? <==> |domain| > 0
    ensures r.Failure? ==> ErrorMessage(r.error) == "domain argument is not supported."
    ensures r.Success? && name1 == name2 ==> r.value.answer && r.value.rounds == []
    ensures r.Success? && name1 != name2 && KindOf(name2) == Some(UserKind) ==>
              !r.value.answer && r.value.rounds == []
    ensures r.Success? && r.value.answer && name1 != name2 ==> Names(Fetched(r.value.rounds), name2)
  {
    if |domain| > 0 then Failure(UnsupportedDomain)
    else if name1 == name2 then Success(Outcome(true, [], []))
    else if KindOf(name2) == Some(UserKind) then Success(Outcome(false, [], []))
    else Success(Resolve(d, name1, name2))
  }

  /** The role-manager operations this manager does not provide. */
  datatype Unsupported = AddLink | DeleteLink | SyncedHasLink | GetRoles | GetUsers

  function OperationName(op: Unsupported): string {
    match op
    case AddLink => "addLink"
    case DeleteLink => "deleteLink"
    case SyncedHasLink => "syncedHasLink"
    case GetRoles => "getRoles"
    case GetUsers => "getUsers"
  }

  /** Any call of an unsupported operation fails, whatever its arguments. */
  function CallUnsupported(op: Unsupported, args: seq<string>): (r: Result<bool, Error>)
    ensures r.Failure? && ErrorMessage(r.error) == "Method \"" + OperationName(op) + "\" not implemented."
  {
    Failure(NotImplemented(OperationName(op)))
  }
}
