# Role manager `hasLink` of the RBAC backend plugin

This project models `BackstageRoleManager.hasLink(name1, name2, ...domain)` of
the RBAC backend plugin. The call answers whether principal `name1`
(for example `user:default/mike`) inherits group `name2` through group
membership and parent groups.

The resolver is stated as the behaviour that
`plugins/rbac-backend/src/service/role-manager.test.ts` fixes with concrete
catalogs, expected queries, answers and warnings.

- `Refs` (refs.dfy): entity references `kind:namespace/name`, their text form,
  and parsing back. A bare group name in a `spec.parent` or `spec.children`
  field names `group:default/<name>`.
- `Graph` (graph.dfy): finite directed graphs over references. It covers walks,
  reachability, the least closed superset (`Closure`), cycles, and cycles as
  strongly connected components.
- `Catalog` (catalog.dfy): group records projected to the five fields the
  resolver asks for, and the two queries it sends: `relations.hasMember` and
  a batched `relations.parentOf`. The catalog itself is a finite `Directory`
  value that answers both queries. A batched parent query answers with the
  parents of each frontier group, in frontier order.
- `CycleTracker` (cycle_tracker.dfy): the group graph built from the fetched
  records' own `parent` and `children` fields. It detects cycles and builds
  the warning text.
- `RoleManager` (role_manager.dfy): `HasLink`, the breadth-first `Explore`
  climb, `Resolve`, and the five operations the manager rejects.
  - A call returns an `Outcome`: the answer, every catalog round trip in
    order (each query and what it returned), and the warnings logged.
  - The climb sends one member query. It then sends one parent query per
    level, over the groups not queried before.
  - When no new group turns up, the resolver checks the group graph of all
    fetched records. If that graph has a cycle, the answer is false and one
    warning is logged. Otherwise the answer is whether a fetched record is
    the target.
- `RoleManagerProofs` (role_manager_proofs.dfy): what `Resolve` computes,
  stated without the climb:
  - the queries it sends;
  - that it fetches exactly the principal's ancestors;
  - when the answer is true;
  - that a cycle blocks every target;
  - that the result depends only on the principal's part of the directory.
- `Scenarios` (scenarios.dfy): each catalog of the test file as a predicate
  over any directory that answers the resolver's queries as the fixture's mock
  does. Group names are arbitrary distinct names. Each lemma states the full
  outcome: answer, queries and warnings.

Three points of the model deserve a note:

- The resolver has no early exit on a frontier match. At test lines
  410-433 the target team-c is the principal's own group, sitting below the
  cycle between team-a and team-b. The answer is still false, so no answer is
  given before the cycle above the target has been seen. At lines 362-385 the
  target team-b is in the principal's first frontier and on the cycle, and is
  false as well. The model fetches the whole ancestor set before it answers.
  This is one reading that meets these tests, not something they force.
- The warning names `name2`, the group asked about (lines 383-385, 392-394,
  435-455).
- A domain argument is rejected before the reflexive check, so
  `hasLink(x, x, domain)` fails. The test at lines 62-70 uses two different
  names, so this order is a choice of the model.

## Model

| member | source | states |
|---|---|---|
| RoleManager.HasLink | plugins/rbac-backend/src/service/role-manager.test.ts:62-86 | A call fails exactly when a domain is given, with message `domain argument is not supported.`; a principal inherits itself without any query; a user-kind target other than the principal is never inherited, without any query; a true answer means some fetched record is the target |
| RoleManager.CallUnsupported | plugins/rbac-backend/src/service/role-manager.test.ts:29-59 | `addLink`, `deleteLink`, `syncedHasLink`, `getRoles` and `getUsers` always fail with `Method "<name>" not implemented.`, whatever the arguments |
| Refs.KindOfText | plugins/rbac-backend/src/service/role-manager.test.ts:80-86 | The kind read off a well-formed reference text is the reference's kind, so `user:default/some-user` is recognised as a user target |
| Refs.ParseText | plugins/rbac-backend/src/service/role-manager.test.ts:80-86 | Parsing the text form of a well-formed reference gives the reference back |
| Refs.TextParse | plugins/rbac-backend/src/service/role-manager.test.ts:80-86 | Whatever parses is the text form of the well-formed reference it parses to |
| Refs.KindOfParse | plugins/rbac-backend/src/service/role-manager.test.ts:80-86 | The kind the user-target check reads off a text is the kind of the reference that text parses to |
| Refs.GroupTarget | plugins/rbac-backend/src/service/role-manager.test.ts:574-598 | A bare group name in a fixture's `parent` or `children` field names the group of that name in the default namespace. Its text reads back as that group, and its kind is `group`, so it is never taken for a user target |
| Refs.DistinctGroups | plugins/rbac-backend/src/service/role-manager.test.ts:574-598 | Fixture groups with different names are different references with different texts, so a target names at most one of them |
| Catalog.ParentOf | plugins/rbac-backend/src/service/role-manager.test.ts:294-300 | One batched parent query returns exactly the parent records the directory holds for the frontier, and their references are exactly the frontier's successors in the parent relation |
| Catalog.NewRefs | plugins/rbac-backend/src/service/role-manager.test.ts:294-300 | The next frontier holds exactly the answered groups not queried before, each once |
| Catalog.NewRefsInOrder | plugins/rbac-backend/src/service/role-manager.test.ts:294-300 | When the answered groups are new and distinct, the next frontier lists them in answer order |
| Graph.ClosureIsReachable | plugins/rbac-backend/src/service/role-manager.test.ts:163-186 | For any group graph and start set, the least closed superset holds exactly the groups reachable from the start. Through `RoleManagerProofs.ResolveFetchesAncestors` this makes the climb's fetched groups the principal's ancestors |
| Graph.CyclesEmptyIff | plugins/rbac-backend/src/service/role-manager.test.ts:362-395 | The set of reported cycles is empty exactly when the group graph has no cycle |
| Graph.OneCycle | plugins/rbac-backend/src/service/role-manager.test.ts:362-395 | A group graph with one closed walk, whose other edges climb a ranking, has exactly one cycle: the walk's members |
| CycleTracker.Detect | plugins/rbac-backend/src/service/role-manager.test.ts:362-395 | No warning exactly when the fetched group graph is acyclic; otherwise one warning that lists every cycle, each non-empty and made only of groups on a cycle, and names the target |
| RoleManagerProofs.ResolveQueries | plugins/rbac-backend/src/service/role-manager.test.ts:99-111 | The first query is the member query, kind `Group`, over the principal, projected to the five fields; every later query is one parent query over the whole frontier the earlier rounds left; the rounds form a complete climb |
| RoleManagerProofs.TraceQueries | plugins/rbac-backend/src/service/role-manager.test.ts:294-300 | In any complete climb, each parent query names, in order, the groups of the frontier the earlier rounds left |
| RoleManagerProofs.ResolveFetchesAncestors | plugins/rbac-backend/src/service/role-manager.test.ts:198-238 | The groups a resolution fetches are exactly the principal's ancestors, and the records it fetches are exactly the directory's records for them |
| RoleManagerProofs.ResolveAnswer | plugins/rbac-backend/src/service/role-manager.test.ts:163-186 | The answer is true exactly when the target names an ancestor and the ancestors' group graph is acyclic; the warning appears exactly when that graph has a cycle, and then lists all cycles and names the target |
| RoleManagerProofs.HasLinkAnswer | plugins/rbac-backend/src/service/role-manager.test.ts:123-132 | Without a domain, `hasLink` answers true exactly when the names are equal, or the target is not a user, names an ancestor, and the ancestors' group graph is acyclic |
| RoleManagerProofs.CycleMeansNoLink | plugins/rbac-backend/src/service/role-manager.test.ts:362-395 | A cycle among the principal's ancestors makes every other target false, even a group the principal belongs to directly; the one warning names the target and lists a cycle through the given group |
| RoleManagerProofs.ResolveIsLocal | plugins/rbac-backend/src/service/role-manager.test.ts:519-572 | Two directories that agree on the principal's groups and on its ancestors' parents give the same answer, queries and warnings, so a cycle in a neighbouring subgraph changes nothing |
| Scenarios.NoGroups | plugins/rbac-backend/src/service/role-manager.test.ts:94-113 | A principal without groups inherits nothing, logs nothing, and the one query sent is the member query with the five listed fields |
| Scenarios.SingleGroup | plugins/rbac-backend/src/service/role-manager.test.ts:123-151 | When every query answers with one group without parent or children, the principal inherits exactly that group (`somegroup` true, against `not-matched-group` false) |
| Scenarios.Chain | plugins/rbac-backend/src/service/role-manager.test.ts:163-186 | With team-a the parent of team-b, the principal's group, the principal inherits exactly team-a and team-b, after three queries |
| Scenarios.SharedParent | plugins/rbac-backend/src/service/role-manager.test.ts:198-238 | A principal in team-b inherits team-b and its parent team-a, and not team-a's other children |
| Scenarios.TwoParents | plugins/rbac-backend/src/service/role-manager.test.ts:283-349 | A principal in team-c and team-d inherits exactly those and their parents team-a and team-b (not team-e). The resolver's second query is one `relations.parentOf` filter that lists `group:default/team-c` then `group:default/team-d` |
| Scenarios.MutualParents | plugins/rbac-backend/src/service/role-manager.test.ts:362-395 | With team-a and team-b each other's parent, every target is false for the principal, team-b included, and each call logs one warning listing exactly the cycle {team-a, team-b} and naming that call's target |
| Scenarios.MutualParentsMessage | plugins/rbac-backend/src/service/role-manager.test.ts:383-385 | That warning, its cycle listed team-a first, reads `Detected cycle dependencies in the Group graph: [["group:default/team-a","group:default/team-b"]]. Admin/(catalog owner) have to fix it ... for group: ` followed by the target |
| Scenarios.CycleAboveChain | plugins/rbac-backend/src/service/role-manager.test.ts:410-456 | A cycle between team-a and team-b above the principal's team-c makes team-c, team-b and team-a all false, and the warning lists team-a and team-b only |
| Scenarios.CycleInTree | plugins/rbac-backend/src/service/role-manager.test.ts:469-501 | A cycle between team-a and team-c in one branch makes the answer false, and the warning lists only that cycle, not the sound branch through team-b |
| Scenarios.NeighbourMike | plugins/rbac-backend/src/service/role-manager.test.ts:558-565 | Mike, whose ancestors contain the cycle between team-a and team-c, inherits nothing, and the warning lists that cycle |
| Scenarios.NeighbourTom | plugins/rbac-backend/src/service/role-manager.test.ts:567-571 | In the same catalog, tom inherits exactly team-d, team-b and root, team-b included, and no warning is logged |
| Scenarios.AcyclicTwo | plugins/rbac-backend/src/service/role-manager.test.ts:163-186 | A two-level climb over records whose group graph climbs a ranking answers whether a fetched record is the target, with the rounds in order and no warning |
| Scenarios.CyclicTwo | plugins/rbac-backend/src/service/role-manager.test.ts:362-395 | A two-level climb over records whose group graph has one cycle answers false for any target and logs one warning listing exactly that cycle |

## Left out

- The catalog client, promises and the jest mocks. The catalog is the pure
  `Directory` value, and a resolution is a function of it, so no state carries
  from one call to the next. The unguarded `hasParent[0]` read in the mock at
  lines 549-551 is part of the test harness and is not modelled.
- The winston logger. Warnings are returned as a list of
  `CycleWarning(cycles, group)` values, not written to a log.
- CycleTracker.Detect: reports the cycles as a set of groups per strongly
  connected component. The tests fix no order of groups inside a cycle or of
  cycles in the list. The text is therefore built from a listing passed in
  (`Message`), and only the fixture at lines 383-385 has its text stated.
- JSON escaping of quotes or backslashes inside group names in the warning
  text.
- References that appear only in a `children` or `parent` field and are never
  fetched as records. They are edges of the group graph but do not count as
  inherited. The tests do not say otherwise.
- Names in `parent` or `children` fields that are already qualified
  (`kind:namespace/name`). Every such name is read as a bare group name in
  the default namespace, which is all the fixtures use.
- Entity fields other than kind, namespace, name, parent and children.
- The kind filter of later parent queries. Only the member query's filter is
  pinned (`kind: 'Group'`, lines 99-111), and the mocks read only
  `relations.parentOf` from later queries. The model sends the parent
  filter alone.
- The projection of later parent queries. Only the first query's fields are
  pinned (lines 99-111), and the model uses the same five fields for every
  query.
- Case folding of entity references, and errors from parsing malformed
  references. The kind check reads the text up to the first `:`.
- Scenarios: each fixture is stated for arbitrary distinct names and for
  every directory that answers the resolver's queries as the mock does, not
  for the literal names `team-a` and so on.
