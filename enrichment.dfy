/** `populate_instances_details` in notify.py: each instance is given its
    project and that project's users, fetched from the identity service
    (Keystone) once per tenant and once per user however many instances
    and projects share them. The identity service is an abstract provider
    over fixed data, with a ghost log of the calls made to it so that the
    number of lookups can be stated. */
module Enrichment {
  import opened PyBuiltins

  /** A user record as the identity service returns it. */
  datatype User = User(id: string, name: string)

  /** A role assignment of a user on a project. */
  datatype RoleAssignment = RoleAssignment(userId: string, projectId: string)

  /** A call made to the identity service, named after the client call. */
  datatype Call = ProjectsGet(tenantId: string) | RoleAssignmentsList(tenantId: string) | UsersGet(userId: string)

  /** How the enrichment ended: every lookup answered, or one of them named
      a project or user the service does not know, which raises in the
      client and ends the enrichment. */
  datatype Outcome = Completed | NotFound

  /** A project: the client returns a new object on every fetch, and the
      enrichment adds its `servers` list and its `users` set to it. */
  class Project {
    const id: string
    const name: string
    var servers: seq<Instance>
    var users: set<User>

    constructor (id: string, name: string)
      ensures this.id == id && this.name == name
      ensures servers == [] && users == {}
    {
      this.id := id;
      this.name := name;
      servers := [];
      users := {};
    }
  }

  /** A server instance, which the enrichment links to its project and to
      that project's users. */
  class Instance {
    const id: string
    const tenantId: string
    var project: Project?
    var users: set<User>

    constructor (id: string, tenantId: string)
      ensures this.id == id && this.tenantId == tenantId
      ensures project == null && users == {}
    {
      this.id := id;
      this.tenantId := tenantId;
      project := null;
      users := {};
    }
  }

  /** The identity service: project names by tenant id, the role
      assignments, and user records by user id. Only the log of calls
      changes. */
  class IdentityService {
    const projectNames: map<string, string>
    const assignments: seq<RoleAssignment>
    const users: map<string, User>
    ghost var log: seq<Call>

    constructor (projectNames: map<string, string>, assignments: seq<RoleAssignment>, users: map<string, User>)
      ensures this.projectNames == projectNames && this.assignments == assignments && this.users == users
      ensures log == []
    {
      this.projectNames := projectNames;
      this.assignments := assignments;
      this.users := users;
      log := [];
    }

    /** `projects.get`: a new project object, or null when the id is
        unknown. */
    method GetProject(tenantId: string) returns (p: Project?)
      modifies this
      ensures log == old(log) + [ProjectsGet(tenantId)]
      ensures p != null <==> tenantId in projectNames
      ensures p != null ==> fresh(p) && p.id == tenantId && p.name == projectNames[tenantId]
      ensures p != null ==> p.servers == [] && p.users == {}
    {
      log := log + [ProjectsGet(tenantId)];
      if tenantId in projectNames {
        p := new Project(tenantId, projectNames[tenantId]);
      } else {
        p := null;
      }
    }

    /** `role_assignments.list(project=…)`: the assignments on the
        project, in order. */
    method ListRoleAssignments(tenantId: string) returns (r: seq<RoleAssignment>)
      modifies this
      ensures log == old(log) + [RoleAssignmentsList(tenantId)]
      ensures r == AssignmentsOn(assignments, tenantId)
    {
      log := log + [RoleAssignmentsList(tenantId)];
      r := AssignmentsOn(assignments, tenantId);
    }

    /** `users.get`: the user record, or None when the id is unknown. */
    method GetUser(userId: string) returns (u: Option<User>)
      modifies this
      ensures log == old(log) + [UsersGet(userId)]
      ensures u.Some? <==> userId in users
      ensures u.Some? ==> u.value == users[userId]
    {
      log := log + [UsersGet(userId)];
      if userId in users {
        u := Some(users[userId]);
      } else {
        u := None;
      }
    }
  }

  // ---------------------------------------------------------------------
  // What the identity service knows

  /** The assignments on project `t`, in the service's order. */
  function AssignmentsOn(assignments: seq<RoleAssignment>, t: string): seq<RoleAssignment> {
    if assignments == [] then []
    else (if assignments[0].projectId == t then [assignments[0]] else []) + AssignmentsOn(assignments[1..], t)
  }

  /** The listing holds exactly the assignments on `t`. */
  lemma {:induction false} AssignmentsOnMembers(assignments: seq<RoleAssignment>, t: string)
    ensures forall a :: a in AssignmentsOn(assignments, t) <==> a in assignments && a.projectId == t
  {
    if assignments != [] {
      AssignmentsOnMembers(assignments[1..], t);
      assert forall a :: a in assignments <==> a == assignments[0] || a in assignments[1..];
    }
  }

  /** The ids of the users assigned to project `t`. */
  ghost function AssignedUsers(assignments: seq<RoleAssignment>, t: string): set<string> {
    if assignments == [] then {}
    else (if assignments[0].projectId == t then {assignments[0].userId} else {}) + AssignedUsers(assignments[1..], t)
  }

  /** A user is assigned to `t` exactly when some assignment on `t` names
      it. */
  lemma {:induction false} AssignedUsersMembers(assignments: seq<RoleAssignment>, t: string, u: string)
    ensures u in AssignedUsers(assignments, t) <==> exists a :: a in assignments && a.projectId == t && a.userId == u
  {
    if assignments != [] {
      AssignedUsersMembers(assignments[1..], t, u);
      assert forall a :: a in assignments <==> a == assignments[0] || a in assignments[1..];
    }
  }

  /** The user records of project `t`'s members, as `set(project_users)`
      builds them. */
  ghost function UsersOf(service: IdentityService, t: string): set<User> {
    set a | a in service.assignments && a.projectId == t && a.userId in service.users :: service.users[a.userId]
  }

  /** Tenant `t` names a project and every user assigned to it names a
      user: resolving it raises nothing. */
  ghost predicate TenantResolvable(service: IdentityService, t: string) {
    && t in service.projectNames
    && forall a :: a in service.assignments && a.projectId == t ==> a.userId in service.users
  }

  /** The tenants of the first `n` instances all resolve. */
  ghost predicate Resolvable(service: IdentityService, instances: seq<Instance>, n: nat)
    requires n <= |instances|
  {
    forall i :: 0 <= i < n ==> TenantResolvable(service, instances[i].tenantId)
  }

  // ---------------------------------------------------------------------
  // The calls the enrichment makes

  /** The distinct tenants of the first `n` instances: the keys the
      `projects` dictionary holds after them. */
  ghost function Seen(instances: seq<Instance>, n: nat): set<string>
    requires n <= |instances|
  {
    if n == 0 then {} else Seen(instances, n - 1) + {instances[n - 1].tenantId}
  }

  /** The users assigned to the tenants of the first `n` instances: the
      keys the `users` dictionary holds after them. */
  ghost function KnownUsers(assignments: seq<RoleAssignment>, instances: seq<Instance>, n: nat): set<string>
    requires n <= |instances|
  {
    if n == 0 then {}
    else if instances[n - 1].tenantId in Seen(instances, n - 1) then KnownUsers(assignments, instances, n - 1)
    else KnownUsers(assignments, instances, n - 1) + AssignedUsers(assignments, instances[n - 1].tenantId)
  }

  /** The user lookups made for the first `k` assignments of `r` when
      the users `known` are cached already: one per user neither cached
      nor named by an earlier assignment. */
  ghost function UserLookups(r: seq<RoleAssignment>, k: nat, known: set<string>): seq<Call>
    requires k <= |r|
  {
    if k == 0 then []
    else
      UserLookups(r, k - 1, known)
      + (if r[k - 1].userId in known || NamedBefore(r, k - 1, r[k - 1].userId) then [] else [UsersGet(r[k - 1].userId)])
  }

  /** One of the first `k` assignments of `r` names user `u`. */
  ghost predicate NamedBefore(r: seq<RoleAssignment>, k: nat, u: string)
    requires k <= |r|
  {
    k > 0 && (r[k - 1].userId == u || NamedBefore(r, k - 1, u))
  }

  /** The user records the first `k` assignments of `r` name, in order,
      with the ids the directory lacks skipped. */
  ghost function NamedUsers(directory: map<string, User>, r: seq<RoleAssignment>, k: nat): seq<User>
    requires k <= |r|
  {
    if k == 0 then []
    else
      NamedUsers(directory, r, k - 1)
      + (if r[k - 1].userId in directory then [directory[r[k - 1].userId]] else [])
  }

  /** The calls that resolve tenant `t` when the users `known` are cached:
      the project, its role assignments, then the users not cached. */
  ghost function Resolution(assignments: seq<RoleAssignment>, t: string, known: set<string>): seq<Call> {
    var r := AssignmentsOn(assignments, t);
    [ProjectsGet(t), RoleAssignmentsList(t)] + UserLookups(r, |r|, known)
  }

  /** The calls made for instance `n`: none when its tenant came earlier,
      otherwise the resolution of its tenant. */
  ghost function Visit(assignments: seq<RoleAssignment>, instances: seq<Instance>, n: nat): seq<Call>
    requires n < |instances|
  {
    var t := instances[n].tenantId;
    if t in Seen(instances, n) then [] else Resolution(assignments, t, KnownUsers(assignments, instances, n))
  }

  /** The calls the enrichment makes over the first `n` instances. */
  ghost function Trace(assignments: seq<RoleAssignment>, instances: seq<Instance>, n: nat): seq<Call>
    requires n <= |instances|
  {
    if n == 0 then [] else Trace(assignments, instances, n - 1) + Visit(assignments, instances, n - 1)
  }

  /** The instances of tenant `t` among the first `n`, in order. */
  ghost function OfTenant(instances: seq<Instance>, n: nat, t: string): seq<Instance>
    requires n <= |instances|
  {
    if n == 0 then []
    else OfTenant(instances, n - 1, t) + (if instances[n - 1].tenantId == t then [instances[n - 1]] else [])
  }

  /** What the enrichment leaves on instance `x` of `instances`: its
      project is the one of its tenant, holding the tenant's users and
      every instance of the tenant in input order, and `x` carries the
      same user set. */
  ghost predicate Enriched(service: IdentityService, instances: seq<Instance>, x: Instance)
    reads x, x.project
  {
    && x.project != null
    && x.project.id == x.tenantId
    && x.tenantId in service.projectNames
    && x.project.name == service.projectNames[x.tenantId]
    && x.project.users == UsersOf(service, x.tenantId)
    && x.project.servers == OfTenant(instances, |instances|, x.tenantId)
    && x.users == x.project.users
  }

  /** The `projects` dictionary after the first `n` instances: keyed by
      their tenants, one distinct object per tenant, each holding its
      tenant's name and users and the tenant's instances so far, in
      order. */
  ghost predicate Registered(service: IdentityService, instances: seq<Instance>, n: nat, projects: map<string, Project>)
    requires n <= |instances|
    reads projects.Values
  {
    && (forall t :: t in projects ==>
          && projects[t].id == t
          && TenantResolvable(service, t)
          && projects[t].name == service.projectNames[t]
          && projects[t].users == UsersOf(service, t)
          && projects[t].servers == OfTenant(instances, n, t))
    && forall t1, t2 :: t1 in projects && t2 in projects && t1 != t2 ==> projects[t1] != projects[t2]
  }

  /** Each of the first `n` instances points at its tenant's project in
      `projects` and carries that project's user set. */
  ghost predicate Linked(instances: seq<Instance>, n: nat, projects: map<string, Project>)
    requires n <= |instances|
    reads instances, projects.Values
  {
    forall i :: 0 <= i < n ==>
      && instances[i].tenantId in projects
      && instances[i].project == projects[instances[i].tenantId]
      && instances[i].users == projects[instances[i].tenantId].users
  }

  // ---------------------------------------------------------------------
  // populate_instances_details

  /** The two dictionaries after the first `n` instances: `projects` is
      keyed by their tenants and `users` by the users assigned to those
      tenants, each holding the service's own record. */
  ghost predicate Cached(service: IdentityService, instances: seq<Instance>, n: nat,
                         users: map<string, User>, projects: map<string, Project>)
    requires n <= |instances|
  {
    && projects.Keys == Seen(instances, n)
    && users.Keys == KnownUsers(service.assignments, instances, n)
    && forall u :: u in users ==> u in service.users && users[u] == service.users[u]
  }

  /** `populate_instances_details`: walks the instances in order, fetching
      a project and its role assignments on the first instance of each
      tenant and a user on the first assignment naming it, and links every
      instance to the shared project object. Returns the instances, how
      the walk ended, and the two counts the source logs: distinct users
      and distinct projects. */
  method PopulateInstancesDetails(service: IdentityService, instances: seq<Instance>)
    returns (servers: seq<Instance>, outcome: Outcome, userCount: nat, projectCount: nat)
    modifies service, instances
    ensures outcome == Completed <==> Resolvable(service, instances, |instances|)
    ensures old(service.log) <= service.log
    ensures service.log <= old(service.log) + Trace(service.assignments, instances, |instances|)
    ensures outcome == Completed ==> service.log == old(service.log) + Trace(service.assignments, instances, |instances|)
    ensures outcome == Completed ==> servers == instances
    ensures outcome == Completed ==>
              forall i :: 0 <= i < |instances| ==> Enriched(service, instances, instances[i]) && fresh(instances[i].project)
    ensures outcome == Completed ==>
              forall i, j :: 0 <= i < |instances| && 0 <= j < |instances| && instances[i].tenantId == instances[j].tenantId ==>
                instances[i].project == instances[j].project
    ensures outcome == Completed ==> userCount == |KnownUsers(service.assignments, instances, |instances|)|
    ensures outcome == Completed ==> projectCount == |Seen(instances, |instances|)|
  {
    var users, projects, found;
    servers, users, projects, found := VisitAll(service, instances);
    if !found {
      outcome, userCount, projectCount := NotFound, 0, 0;
      return;
    }
    outcome := Completed;
    userCount := |users|;
    projectCount := |projects|;
    Finished(service, instances, projects);
  }

  /** The `for` loop of `populate_instances_details`: visits the instances
      in order until one of them cannot be resolved. When all are visited
      (`found`), the two dictionaries, the output list and the log are
      those of the whole walk. */
  method VisitAll(service: IdentityService, instances: seq<Instance>)
    returns (servers: seq<Instance>, users: map<string, User>, projects: map<string, Project>, found: bool)
    modifies service, instances
    ensures found <==> Resolvable(service, instances, |instances|)
    ensures old(service.log) <= service.log
    ensures service.log <= old(service.log) + Trace(service.assignments, instances, |instances|)
    ensures found ==> service.log == old(service.log) + Trace(service.assignments, instances, |instances|)
    ensures found ==> servers == instances
    ensures found ==> Cached(service, instances, |instances|, users, projects)
    ensures found ==> forall p :: p in projects.Values ==> fresh(p)
    ensures found ==> Registered(service, instances, |instances|, projects) && Linked(instances, |instances|, projects)
  {
    ghost var log0 := service.log;
    users, projects := map[], map[];
    servers := [];
    var n := 0;
    while n < |instances|
      invariant 0 <= n <= |instances|
      invariant servers == instances[..n]
      invariant service.log == log0 + Trace(service.assignments, instances, n)
      invariant Resolvable(service, instances, n)
      invariant Cached(service, instances, n, users, projects)
      invariant forall p :: p in projects.Values ==> fresh(p)
      invariant Registered(service, instances, n, projects)
      invariant Linked(instances, n, projects)
    {
      users, projects, found := VisitInstance(service, instances, n, users, projects);
      if !found {
        AbortLog(service.assignments, instances, n, log0, service.log);
        return;
      }
      ResolvableStep(service, instances, n);
      TraceStep(service.assignments, instances, n, log0);
      SliceStep(instances, n);
      servers := servers + [instances[n]];
      n := n + 1;
    }
    assert instances[..n] == instances;
    found := true;
  }

  /** One pass of the loop body of `populate_instances_details`, on
      instance `n`: resolve its tenant unless `projects` has it, then
      link the instance to the tenant's project. `found` is false when
      the tenant's project or one of its users is unknown. */
  method VisitInstance(service: IdentityService, instances: seq<Instance>, n: nat,
                       users: map<string, User>, projects: map<string, Project>)
    returns (users': map<string, User>, projects': map<string, Project>, found: bool)
    modifies service, instances[n], projects.Values
    requires n < |instances|
    requires Cached(service, instances, n, users, projects)
    requires Registered(service, instances, n, projects) && Linked(instances, n, projects)
    ensures found <==> TenantResolvable(service, instances[n].tenantId)
    ensures old(service.log) <= service.log
    ensures service.log <= old(service.log) + Visit(service.assignments, instances, n)
    ensures found ==> service.log == old(service.log) + Visit(service.assignments, instances, n)
    ensures found ==> Cached(service, instances, n + 1, users', projects')
    ensures found ==> Registered(service, instances, n + 1, projects') && Linked(instances, n + 1, projects')
    ensures found ==> forall p :: p in projects'.Values ==> p in projects.Values || fresh(p)
  {
    users', projects', found := TenantProject(service, instances, n, users, projects);
    if found {
      Attach(service, instances, n, projects', projects'[instances[n].tenantId]);
    }
  }

  /** The start of the loop body: the project of instance `n`'s tenant is
      the one in `projects` when an earlier instance had the tenant, and
      is otherwise resolved and added to `projects`, with its users added
      to `users`. */
  method TenantProject(service: IdentityService, instances: seq<Instance>, n: nat,
                       users: map<string, User>, projects: map<string, Project>)
    returns (users': map<string, User>, projects': map<string, Project>, found: bool)
    modifies service
    requires n < |instances|
    requires Cached(service, instances, n, users, projects)
    requires Registered(service, instances, n, projects) && Linked(instances, n, projects)
    ensures found <==> TenantResolvable(service, instances[n].tenantId)
    ensures old(service.log) <= service.log
    ensures service.log <= old(service.log) + Visit(service.assignments, instances, n)
    ensures found ==> service.log == old(service.log) + Visit(service.assignments, instances, n)
    ensures found ==> Cached(service, instances, n + 1, users', projects') && instances[n].tenantId in projects'
    ensures found ==> Registered(service, instances, n, projects') && Linked(instances, n, projects')
    ensures found ==> forall p :: p in projects'.Values ==> p in projects.Values || fresh(p)
  {
    var t := instances[n].tenantId;
    users', projects', found := users, projects, true;
    if t !in projects {
      var p, cache := ResolveProject(service, t, users, KnownUsers(service.assignments, instances, n));
      if p == null {
        found := false;
        return;
      }
      Register(service, instances, n, projects, t, p);
      users', projects' := cache, projects[t := p];
    }
  }

  /** The end of the loop body of `populate_instances_details`: instance
      `n` is linked to its tenant's project `project` and takes the
      project's user set, and is appended to the project's servers. */
  method Attach(ghost service: IdentityService, instances: seq<Instance>, n: nat,
                ghost projects: map<string, Project>, project: Project)
    modifies instances[n], project
    requires n < |instances| && instances[n].tenantId in projects && project == projects[instances[n].tenantId]
    requires Registered(service, instances, n, projects) && Linked(instances, n, projects)
    ensures Registered(service, instances, n + 1, projects) && Linked(instances, n + 1, projects)
  {
    var server := instances[n];
    server.project := project;
    server.users := project.users;
    project.servers := project.servers + [server];
  }

  /** A project just resolved for the tenant of instance `n`, which no
      earlier instance has, joins the registry; the links of the earlier
      instances stay as they are. */
  lemma Register(service: IdentityService, instances: seq<Instance>, n: nat,
                 projects: map<string, Project>, t: string, p: Project)
    requires n < |instances| && t == instances[n].tenantId && t !in projects
    requires projects.Keys == Seen(instances, n)
    requires Registered(service, instances, n, projects) && Linked(instances, n, projects)
    requires p.id == t && TenantResolvable(service, t) && p.name == service.projectNames[t]
    requires p.users == UsersOf(service, t) && p.servers == []
    requires forall t' :: t' in projects ==> projects[t'] != p
    ensures Registered(service, instances, n, projects[t := p]) && Linked(instances, n, projects[t := p])
  {
    OfTenantUnseen(instances, n, t);
  }

  /** After the last instance every instance is enriched, and instances of
      one tenant share its project. */
  lemma Finished(service: IdentityService, instances: seq<Instance>, projects: map<string, Project>)
    requires Registered(service, instances, |instances|, projects) && Linked(instances, |instances|, projects)
    ensures forall i :: 0 <= i < |instances| ==>
              Enriched(service, instances, instances[i]) && instances[i].project in projects.Values
    ensures forall i, j :: 0 <= i < |instances| && 0 <= j < |instances| && instances[i].tenantId == instances[j].tenantId ==>
              instances[i].project == instances[j].project
  {
  }

  /** The body of the `if` in `populate_instances_details` for a tenant
      `t` met for the first time, with the users `known` cached: fetch the
      project, list its role assignments and fetch their users through the
      cache. Returns null when a lookup names an unknown project or
      user. */
  method ResolveProject(service: IdentityService, t: string, users: map<string, User>, ghost known: set<string>)
    returns (p: Project?, cache: map<string, User>)
    modifies service
    requires users.Keys == known
    requires forall u :: u in users ==> u in service.users && users[u] == service.users[u]
    ensures p != null <==> TenantResolvable(service, t)
    ensures old(service.log) <= service.log
    ensures service.log <= old(service.log) + Resolution(service.assignments, t, known)
    ensures p != null ==> service.log == old(service.log) + Resolution(service.assignments, t, known)
    ensures p != null ==> fresh(p) && p.id == t && p.name == service.projectNames[t]
    ensures p != null ==> p.servers == [] && p.users == UsersOf(service, t)
    ensures p != null ==> cache.Keys == known + AssignedUsers(service.assignments, t)
    ensures forall u :: u in cache ==> u in service.users && cache[u] == service.users[u]
  {
    ghost var asg := service.assignments;
    ghost var start := service.log;
    cache := users;
    p := service.GetProject(t);
    if p == null {
      PrefixExtend(start, [ProjectsGet(t)], Resolution(asg, t, known));
      return;
    }
    p.servers := [];
    var assignments := service.ListRoleAssignments(t);
    ghost var listed := service.log;
    var projectUsers, found;
    projectUsers, cache, found := FetchUsers(service, assignments, users, known);
    ResolutionLog(asg, t, known, start, listed, service.log);
    AssignmentsOnMembers(asg, t);
    if !found {
      var a :| a in assignments && a.userId !in service.users;
      p := null;
      return;
    }
    p.users := set x | x in projectUsers;
    ProjectUsers(service, t, assignments);
    AssignedUsersOn(asg, t);
  }

  /** The `for` loop over the role assignments of one project: the user of
      each assignment, fetched unless the cache `users` holds it already
      and added to the cache. `found` is false when a lookup names an
      unknown user, which ends the loop. */
  method FetchUsers(service: IdentityService, assignments: seq<RoleAssignment>,
                    users: map<string, User>, ghost known: set<string>)
    returns (projectUsers: seq<User>, cache: map<string, User>, found: bool)
    modifies service
    requires users.Keys == known
    requires forall u :: u in users ==> u in service.users && users[u] == service.users[u]
    ensures found <==> forall a :: a in assignments ==> a.userId in service.users
    ensures old(service.log) <= service.log
    ensures service.log <= old(service.log) + UserLookups(assignments, |assignments|, known)
    ensures found ==> service.log == old(service.log) + UserLookups(assignments, |assignments|, known)
    ensures found ==> projectUsers == NamedUsers(service.users, assignments, |assignments|)
    ensures found ==> cache.Keys == known + set a | a in assignments :: a.userId
    ensures forall u :: u in cache ==> u in service.users && cache[u] == service.users[u]
  {
    ghost var log0 := service.log;
    cache := users;
    projectUsers := [];
    var k := 0;
    while k < |assignments|
      invariant 0 <= k <= |assignments|
      invariant service.log == log0 + UserLookups(assignments, k, known)
      invariant forall u :: u in cache <==> u in known || NamedBefore(assignments, k, u)
      invariant forall u :: u in cache ==> u in service.users && cache[u] == service.users[u]
      invariant projectUsers == NamedUsers(service.users, assignments, k)
    {
      var uid := assignments[k].userId;
      if uid !in cache {
        var u := service.GetUser(uid);
        if u.None? {
          assert assignments[k] in assignments;
          LookupsPrefix(assignments, known, k + 1);
          PrefixExtend(log0, UserLookups(assignments, k + 1, known),
                       UserLookups(assignments, |assignments|, known));
          found := false;
          return;
        }
        cache := cache[uid := u.value];
      }
      projectUsers := projectUsers + [cache[uid]];
      k := k + 1;
    }
    found := true;
    CachedAll(assignments, known, cache.Keys);
  }

  // ---------------------------------------------------------------------
  // Helpers for the loops

  /** The keys cached after the loop: the users cached before and the
      users the assignments name. */
  lemma CachedAll(assignments: seq<RoleAssignment>, known: set<string>, keys: set<string>)
    requires forall u :: u in keys <==> u in known || NamedBefore(assignments, |assignments|, u)
    ensures keys == known + set a | a in assignments :: a.userId
    ensures forall a :: a in assignments ==> a.userId in keys
  {
    forall u ensures u in keys <==> u in known || exists a :: a in assignments && a.userId == u {
      NamedBeforeSome(assignments, |assignments|, u);
    }
  }

  /** NamedBefore holds exactly when one of the first `k` assignments names
      the user. */
  lemma {:induction false} NamedBeforeSome(r: seq<RoleAssignment>, k: nat, u: string)
    requires k <= |r|
    ensures NamedBefore(r, k, u) <==> exists j :: 0 <= j < k && r[j].userId == u
  {
    if k > 0 {
      NamedBeforeSome(r, k - 1, u);
    }
  }

  /** The users the assignments on `t` name are the users assigned to `t`. */
  lemma AssignedUsersOn(assignments: seq<RoleAssignment>, t: string)
    ensures (set a | a in AssignmentsOn(assignments, t) :: a.userId) == AssignedUsers(assignments, t)
  {
    AssignmentsOnMembers(assignments, t);
    forall u ensures u in AssignedUsers(assignments, t) <==> exists a :: a in AssignmentsOn(assignments, t) && a.userId == u {
      AssignedUsersMembers(assignments, t, u);
    }
  }

  /** The tenants of one more instance resolve when its own does. */
  lemma ResolvableStep(service: IdentityService, instances: seq<Instance>, n: nat)
    requires n < |instances|
    ensures Resolvable(service, instances, n) && TenantResolvable(service, instances[n].tenantId)
            ==> Resolvable(service, instances, n + 1)
  {
  }

  /** The log after one more instance. */
  lemma TraceStep(assignments: seq<RoleAssignment>, instances: seq<Instance>, n: nat, log0: seq<Call>)
    requires n < |instances|
    ensures log0 + Trace(assignments, instances, n) + Visit(assignments, instances, n)
            == log0 + Trace(assignments, instances, n + 1)
  {
  }

  /** The log of a walk stopped on instance `n` extends the log before the walk and is a prefix of the log of a
      completed walk. */
  lemma AbortLog(assignments: seq<RoleAssignment>, instances: seq<Instance>, n: nat, log0: seq<Call>, log: seq<Call>)
    requires n < |instances|
    requires log0 + Trace(assignments, instances, n) <= log
    requires log <= log0 + Trace(assignments, instances, n) + Visit(assignments, instances, n)
    ensures log0 <= log
    ensures log <= log0 + Trace(assignments, instances, |instances|)
  {
    TraceStep(assignments, instances, n, log0);
    TracePrefix(assignments, instances, n + 1);
    PrefixExtend(log0, Trace(assignments, instances, n + 1), Trace(assignments, instances, |instances|));
  }

  /** No instance among the first `n` has a tenant not seen among them. */
  lemma {:induction false} OfTenantUnseen(instances: seq<Instance>, n: nat, t: string)
    requires n <= |instances| && t !in Seen(instances, n)
    ensures OfTenant(instances, n, t) == []
  {
    if n > 0 {
      OfTenantUnseen(instances, n - 1, t);
    }
  }

  /** The first `n + 1` instances are the first `n` and instance `n`. */
  lemma SliceStep<T>(s: seq<T>, n: nat)
    requires n < |s|
    ensures s[..n + 1] == s[..n] + [s[n]]
  {
  }

  /** Extending both sides of a prefix by the same front keeps it one. */
  lemma PrefixExtend<T>(front: seq<T>, a: seq<T>, b: seq<T>)
    requires a <= b
    ensures front + a <= front + b
  {
    assert forall i :: 0 <= i < |front + a| ==> (front + a)[i] == (front + b)[i];
  }

  /** The log of a resolution of `t` that got past the listing of its
      role assignments, given the log `listed` just after the listing. */
  lemma ResolutionLog(assignments: seq<RoleAssignment>, t: string, known: set<string>,
                      start: seq<Call>, listed: seq<Call>, log: seq<Call>)
    requires listed == start + [ProjectsGet(t)] + [RoleAssignmentsList(t)]
    requires listed <= log
    requires log <= listed + UserLookups(AssignmentsOn(assignments, t), |AssignmentsOn(assignments, t)|, known)
    ensures start <= log && log <= start + Resolution(assignments, t, known)
    ensures log == listed + UserLookups(AssignmentsOn(assignments, t), |AssignmentsOn(assignments, t)|, known) ==>
              log == start + Resolution(assignments, t, known)
  {
    var r := AssignmentsOn(assignments, t);
    assert listed + UserLookups(r, |r|, known) == start + Resolution(assignments, t, known);
    PrefixAppend(start, [ProjectsGet(t)] + [RoleAssignmentsList(t)], log);
  }

  /** A prefix of a prefix is a prefix. */
  lemma PrefixAppend<T>(a: seq<T>, b: seq<T>, c: seq<T>)
    requires a + b <= c
    ensures a <= c
  {
    assert a == (a + b)[..|a|];
  }

  /** The lookups for the first `k` assignments are a prefix of those for all. */
  lemma {:induction false} LookupsPrefix(r: seq<RoleAssignment>, known: set<string>, k: nat)
    requires k <= |r|
    ensures UserLookups(r, k, known) <= UserLookups(r, |r|, known)
    decreases |r| - k
  {
    if k < |r| {
      LookupsPrefix(r, known, k + 1);
      var last := if r[k].userId in known || NamedBefore(r, k, r[k].userId) then [] else [UsersGet(r[k].userId)];
      PrefixAppend(UserLookups(r, k, known), last, UserLookups(r, |r|, known));
    }
  }

  /** The calls for the first `n` instances are a prefix of those for all. */
  lemma {:induction false} TracePrefix(assignments: seq<RoleAssignment>, instances: seq<Instance>, n: nat)
    requires n <= |instances|
    ensures Trace(assignments, instances, n) <= Trace(assignments, instances, |instances|)
    decreases |instances| - n
  {
    if n < |instances| {
      TracePrefix(assignments, instances, n + 1);
      PrefixAppend(Trace(assignments, instances, n), Visit(assignments, instances, n),
                   Trace(assignments, instances, |instances|));
    }
  }

  /** The set built from the users of the assignments on `t` is the
      project's user set, once every assignment names a known user. */
  lemma ProjectUsers(service: IdentityService, t: string, assignments: seq<RoleAssignment>)
    requires assignments == AssignmentsOn(service.assignments, t)
    requires forall a :: a in assignments ==> a.userId in service.users
    ensures (set x | x in NamedUsers(service.users, assignments, |assignments|)) == UsersOf(service, t)
  {
    var named := NamedUsers(service.users, assignments, |assignments|);
    AssignmentsOnMembers(service.assignments, t);
    forall x | x in named ensures x in UsersOf(service, t) {
      NamedUsersMember(service.users, assignments, |assignments|, x);
      var j :| 0 <= j < |assignments| && assignments[j].userId in service.users && service.users[assignments[j].userId] == x;
      assert assignments[j] in assignments;
    }
    forall a | a in service.assignments && a.projectId == t ensures service.users[a.userId] in named {
      var j :| 0 <= j < |assignments| && assignments[j] == a;
      NamedUsersMember(service.users, assignments, |assignments|, service.users[a.userId]);
    }
  }

  /** A user is among those the first `k` assignments name exactly when
      one of those assignments names it in the directory. */
  lemma {:induction false} NamedUsersMember(directory: map<string, User>, r: seq<RoleAssignment>, k: nat, x: User)
    requires k <= |r|
    ensures x in NamedUsers(directory, r, k) <==>
              exists j :: 0 <= j < k && r[j].userId in directory && directory[r[j].userId] == x
  {
    if k > 0 {
      NamedUsersMember(directory, r, k - 1, x);
      if r[k - 1].userId in directory && directory[r[k - 1].userId] == x {
        assert x in NamedUsers(directory, r, k);
      }
    }
  }
}
