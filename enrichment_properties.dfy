/** What the calls of `populate_instances_details` amount to: each
    project is fetched and its role assignments listed once per distinct
    tenant, each user fetched once per distinct user however many projects
    name it, and the dictionaries it counts hold exactly the distinct
    tenants and users. */
module EnrichmentProperties {
  import opened Enrichment

  /** The tenants `projects` is keyed by are those of the instances. */
  lemma {:induction false} SeenTenants(instances: seq<Instance>, n: nat)
    requires n <= |instances|
    ensures Seen(instances, n) == set i | 0 <= i < n :: instances[i].tenantId
  {
    if n > 0 {
      SeenTenants(instances, n - 1);
      var before := set i | 0 <= i < n - 1 :: instances[i].tenantId;
      var all := set i | 0 <= i < n :: instances[i].tenantId;
      assert all == before + {instances[n - 1].tenantId} by {
        forall x | x in all ensures x in before + {instances[n - 1].tenantId} {
          var i :| 0 <= i < n && instances[i].tenantId == x;
          if i < n - 1 {
            assert x in before;
          }
        }
      }
    }
  }

  /** The users `users` is keyed by are those assigned to the tenants of
      the instances. */
  lemma {:induction false} KnownUsersAssigned(assignments: seq<RoleAssignment>, instances: seq<Instance>, n: nat)
    requires n <= |instances|
    ensures KnownUsers(assignments, instances, n) ==
              set a | a in assignments && a.projectId in Seen(instances, n) :: a.userId
  {
    if n > 0 {
      KnownUsersAssigned(assignments, instances, n - 1);
      var t := instances[n - 1].tenantId;
      var before := set a | a in assignments && a.projectId in Seen(instances, n - 1) :: a.userId;
      var all := set a | a in assignments && a.projectId in Seen(instances, n) :: a.userId;
      assert all == before + AssignedUsers(assignments, t) by {
        forall u | u in AssignedUsers(assignments, t) ensures u in all {
          AssignedUsersMembers(assignments, t, u);
        }
        forall u | u in all ensures u in before + AssignedUsers(assignments, t) {
          var a :| a in assignments && a.projectId in Seen(instances, n) && a.userId == u;
          if a.projectId in Seen(instances, n - 1) {
            assert u in before;
          } else {
            AssignedUsersMembers(assignments, t, u);
          }
        }
      }
    }
  }

  /** How many times `x` occurs among the first `k` elements of `s`. */
  function OccurrencesIn<T(==)>(s: seq<T>, k: nat, x: T): nat
    requires k <= |s|
  {
    if k == 0 then 0 else OccurrencesIn(s, k - 1, x) + (if s[k - 1] == x then 1 else 0)
  }

  /** How many times `x` occurs in `s`. */
  function Occurrences<T(==)>(s: seq<T>, x: T): nat {
    OccurrencesIn(s, |s|, x)
  }

  /** Counting a prefix of `a + b` that lies within `a` is counting in `a`. */
  lemma {:induction false} OccurrencesInPrefix<T>(a: seq<T>, b: seq<T>, k: nat, x: T)
    requires k <= |a|
    ensures OccurrencesIn(a + b, k, x) == OccurrencesIn(a, k, x)
  {
    if k > 0 {
      OccurrencesInPrefix(a, b, k - 1, x);
    }
  }

  /** Counting past the end of `a` in `a + b` counts the rest in `b`. */
  lemma {:induction false} OccurrencesInSuffix<T>(a: seq<T>, b: seq<T>, k: nat, x: T)
    requires k <= |b|
    ensures OccurrencesIn(a + b, |a| + k, x) == Occurrences(a, x) + OccurrencesIn(b, k, x)
  {
    if k == 0 {
      OccurrencesInPrefix(a, b, |a|, x);
    } else {
      OccurrencesInSuffix(a, b, k - 1, x);
    }
  }

  /** Occurrences add up over concatenation. */
  lemma OccurrencesAppend<T>(a: seq<T>, b: seq<T>, x: T)
    ensures Occurrences(a + b, x) == Occurrences(a, x) + Occurrences(b, x)
  {
    OccurrencesInSuffix(a, b, |b|, x);
  }

  /** Occurrences are multiplicities in the multiset of the sequence. */
  lemma {:induction false} OccurrencesInMultiset<T>(s: seq<T>, k: nat, x: T)
    requires k <= |s|
    ensures OccurrencesIn(s, k, x) == multiset(s[..k])[x]
  {
    if k > 0 {
      OccurrencesInMultiset(s, k - 1, x);
      assert s[..k] == s[..k - 1] + [s[k - 1]];
    }
  }

  /** A project's servers are the instances of its tenant, each as often
      as it occurs among the first `n` instances. */
  lemma {:induction false} OfTenantMembers(instances: seq<Instance>, n: nat, t: string, x: Instance)
    requires n <= |instances|
    ensures Occurrences(OfTenant(instances, n, t), x) ==
              if x.tenantId == t then OccurrencesIn(instances, n, x) else 0
  {
    if n > 0 {
      OfTenantMembers(instances, n - 1, t, x);
      var last := instances[n - 1];
      var piece := if last.tenantId == t then [last] else [];
      OccurrencesAppend(OfTenant(instances, n - 1, t), piece, x);
      assert Occurrences(piece, x) == if piece != [] && last == x then 1 else 0 by {
        if piece != [] {
          assert OccurrencesIn(piece, 0, x) == 0;
        }
      }
    }
  }

  /** The two calls that open a resolution: the project fetch and the
      listing of its assignments. */
  lemma ResolutionHead(t: string, c: Call)
    ensures Occurrences([ProjectsGet(t), RoleAssignmentsList(t)], c) ==
              if !c.UsersGet? && c.tenantId == t then 1 else 0
  {
    var head := [ProjectsGet(t), RoleAssignmentsList(t)];
    assert OccurrencesIn(head, 1, c) == if c == ProjectsGet(t) then 1 else 0;
  }

  /** The user lookups of one listing fetch each user not cached before
      and named by one of the assignments exactly once, and nothing
      else. */
  lemma {:induction false} UserLookupsCount(r: seq<RoleAssignment>, k: nat, known: set<string>, c: Call)
    requires k <= |r|
    ensures Occurrences(UserLookups(r, k, known), c) ==
              if c.UsersGet? && c.userId !in known && NamedBefore(r, k, c.userId) then 1 else 0
  {
    if k > 0 {
      UserLookupsCount(r, k - 1, known, c);
      var last := if r[k - 1].userId in known || NamedBefore(r, k - 1, r[k - 1].userId) then [] else [UsersGet(r[k - 1].userId)];
      OccurrencesAppend(UserLookups(r, k - 1, known), last, c);
      assert Occurrences(last, c) == if last != [] && last[0] == c then 1 else 0 by {
        if last != [] {
          assert OccurrencesIn(last, 0, c) == 0;
        }
      }
    }
  }

  /** Resolving a tenant fetches its project once and lists its
      assignments once. */
  lemma ResolutionTenantCount(assignments: seq<RoleAssignment>, t: string, known: set<string>, c: Call)
    requires !c.UsersGet?
    ensures Occurrences(Resolution(assignments, t, known), c) == if c.tenantId == t then 1 else 0
  {
    var r := AssignmentsOn(assignments, t);
    UserLookupsCount(r, |r|, known, c);
    OccurrencesAppend([ProjectsGet(t), RoleAssignmentsList(t)], UserLookups(r, |r|, known), c);
    ResolutionHead(t, c);
  }

  /** Resolving a tenant fetches each of its users not cached once. */
  lemma ResolutionUserCount(assignments: seq<RoleAssignment>, t: string, known: set<string>, c: Call)
    requires c.UsersGet?
    ensures Occurrences(Resolution(assignments, t, known), c) ==
              if c.userId !in known && c.userId in AssignedUsers(assignments, t) then 1 else 0
  {
    var r := AssignmentsOn(assignments, t);
    UserLookupsCount(r, |r|, known, c);
    OccurrencesAppend([ProjectsGet(t), RoleAssignmentsList(t)], UserLookups(r, |r|, known), c);
    ResolutionHead(t, c);
    NamedBeforeSome(r, |r|, c.userId);
    AssignmentsOnMembers(assignments, t);
    AssignedUsersMembers(assignments, t, c.userId);
    if c.userId in AssignedUsers(assignments, t) {
      var a :| a in assignments && a.projectId == t && a.userId == c.userId;
      var j :| 0 <= j < |r| && r[j] == a;
    }
  }

  /** How often instance `n`'s visit makes call `c`, in closed form: a
      new tenant's project fetch and listing once each, and once each of
      its users not known yet. */
  ghost function VisitCount(assignments: seq<RoleAssignment>, instances: seq<Instance>, n: nat, c: Call): nat
    requires n < |instances|
  {
    var t := instances[n].tenantId;
    if t in Seen(instances, n) then 0
    else if c.UsersGet? then
      (if c.userId !in KnownUsers(assignments, instances, n) && c.userId in AssignedUsers(assignments, t) then 1 else 0)
    else if c.tenantId == t then 1 else 0
  }

  /** How often the first `n` visits make call `c`, visit by visit. */
  ghost function CallsCount(assignments: seq<RoleAssignment>, instances: seq<Instance>, n: nat, c: Call): nat
    requires n <= |instances|
  {
    if n == 0 then 0 else CallsCount(assignments, instances, n - 1, c) + VisitCount(assignments, instances, n - 1, c)
  }

  /** Instance `n`'s visit makes call `c` as often as VisitCount says. */
  lemma VisitCounted(assignments: seq<RoleAssignment>, instances: seq<Instance>, n: nat, c: Call)
    requires n < |instances|
    ensures Occurrences(Visit(assignments, instances, n), c) == VisitCount(assignments, instances, n, c)
  {
    var t := instances[n].tenantId;
    if t !in Seen(instances, n) {
      var known := KnownUsers(assignments, instances, n);
      if c.UsersGet? {
        ResolutionUserCount(assignments, t, known, c);
      } else {
        ResolutionTenantCount(assignments, t, known, c);
      }
    }
  }

  /** The trace makes each call as often as its visits add up to. */
  lemma {:induction false} TraceCount(assignments: seq<RoleAssignment>, instances: seq<Instance>, n: nat, c: Call)
    requires n <= |instances|
    ensures Occurrences(Trace(assignments, instances, n), c) == CallsCount(assignments, instances, n, c)
  {
    if n > 0 {
      TraceCount(assignments, instances, n - 1, c);
      OccurrencesAppend(Trace(assignments, instances, n - 1), Visit(assignments, instances, n - 1), c);
      VisitCounted(assignments, instances, n - 1, c);
    }
  }

  /** Over the first `n` instances, the project of each distinct tenant is
      fetched exactly once and its role assignments listed exactly once. */
  lemma {:induction false} TenantCallsCount(assignments: seq<RoleAssignment>, instances: seq<Instance>, n: nat, c: Call)
    requires n <= |instances| && !c.UsersGet?
    ensures CallsCount(assignments, instances, n, c) == if c.tenantId in Seen(instances, n) then 1 else 0
  {
    if n > 0 {
      TenantCallsCount(assignments, instances, n - 1, c);
    }
  }

  /** Over the first `n` instances, each distinct user assigned to one of
      their tenants is fetched exactly once, and no other user. */
  lemma {:induction false} UserCallsCount(assignments: seq<RoleAssignment>, instances: seq<Instance>, n: nat, c: Call)
    requires n <= |instances| && c.UsersGet?
    ensures CallsCount(assignments, instances, n, c) ==
              if c.userId in KnownUsers(assignments, instances, n) then 1 else 0
  {
    if n > 0 {
      UserCallsCount(assignments, instances, n - 1, c);
    }
  }

  /** A completed enrichment made exactly the calls of its trace: one
      project fetch and one listing per distinct tenant of the instances,
      one user fetch per distinct user assigned to those tenants. */
  lemma LookupsOnce(assignments: seq<RoleAssignment>, instances: seq<Instance>, before: seq<Call>, after: seq<Call>, c: Call)
    requires after == before + Trace(assignments, instances, |instances|)
    ensures multiset(after)[c] - multiset(before)[c] ==
              if c.UsersGet? then
                (if exists a, i :: a in assignments && 0 <= i < |instances| && a.projectId == instances[i].tenantId && a.userId == c.userId
                 then 1 else 0)
              else if exists i :: 0 <= i < |instances| && instances[i].tenantId == c.tenantId then 1 else 0
  {
    TraceCount(assignments, instances, |instances|, c);
    if c.UsersGet? {
      UserCallsCount(assignments, instances, |instances|, c);
    } else {
      TenantCallsCount(assignments, instances, |instances|, c);
    }
    var trace := Trace(assignments, instances, |instances|);
    OccurrencesInMultiset(trace, |trace|, c);
    assert trace[..|trace|] == trace;
    SeenTenants(instances, |instances|);
    KnownUsersAssigned(assignments, instances, |instances|);
    if c.UsersGet? {
      var tenants := Seen(instances, |instances|);
      if c.userId in KnownUsers(assignments, instances, |instances|) {
        var a :| a in assignments && a.projectId in tenants && a.userId == c.userId;
        var i :| 0 <= i < |instances| && instances[i].tenantId == a.projectId;
      }
    }
  }
}
