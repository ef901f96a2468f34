/**
 Role-based access control: the in-memory role store and the enforcer whose capped
 depth-first search resolves inheritance.
 */
module Rbac {
  import opened Wrappers
  import opened RoleGraph

  datatype Permission = Permission(resource: string, action: string) {
    predicate Matches(resource: string, action: string) {
      && (this.resource == "*" || this.resource == resource)
      && (this.action == "*" || this.action == action)
    }
  }

  datatype Role = Role(name: string, parents: seq<string>, permissions: seq<Permission>)

  type Roles = map<string, Role>

  /** The search refuses to visit a name once more than 64 names have been visited. */
  const MAX_NAMES: nat := 65

  function Edges(roles: Roles): Graph<string> {
    map name | name in roles :: roles[name].parents
  }

  ghost predicate Grants(roles: Roles, name: string, action: string, resource: string) {
    && name in roles
    && exists i :: 0 <= i < |roles[name].permissions| && roles[name].permissions[i].Matches(resource, action)
  }

  /** The request is covered by a role that the roots inherit from, directly or not. */
  ghost predicate Inherits(roles: Roles, roots: seq<string>, action: string, resource: string) {
    exists name :: Reaches(Edges(roles), roots, name) && Grants(roles, name, action, resource)
  }

  ghost function Order(roles: Roles, roots: seq<string>): seq<string> {
    Discover(Edges(roles), roots, [])
  }

  ghost predicate GrantedWithin(roles: Roles, names: seq<string>, action: string, resource: string) {
    exists i :: 0 <= i < |names| && Grants(roles, names[i], action, resource)
  }

  function Capped(names: seq<string>): seq<string> {
    if |names| <= MAX_NAMES then names else names[..MAX_NAMES]
  }

  /** What the capped search decides, told in terms of the uncapped discovery order. */
  ghost predicate Decision(roles: Roles, roots: seq<string>, action: string, resource: string) {
    GrantedWithin(roles, Capped(Order(roles, roots)), action, resource)
  }

  /** One of the role's permissions names the resource and the action, or a star in place of either. */
  ghost predicate Permits(role: Role, action: string, resource: string) {
    || Permission(resource, action) in role.permissions
    || Permission("*", action) in role.permissions
    || Permission(resource, "*") in role.permissions
    || Permission("*", "*") in role.permissions
  }

  lemma GrantsExactly(roles: Roles, name: string, action: string, resource: string)
    ensures Grants(roles, name, action, resource) <==> name in roles && Permits(roles[name], action, resource)
  {
    if Grants(roles, name, action, resource) {
      var i :| 0 <= i < |roles[name].permissions| && roles[name].permissions[i].Matches(resource, action);
      var p := roles[name].permissions[i];
      assert p in roles[name].permissions && p == Permission(p.resource, p.action);
    }
    forall p | name in roles && p in roles[name].permissions && p.resource in ["*", resource] && p.action in ["*", action]
      ensures Grants(roles, name, action, resource)
    {
      var i :| 0 <= i < |roles[name].permissions| && roles[name].permissions[i] == p;
      assert roles[name].permissions[i].Matches(resource, action);
    }
  }

  /** A request is allowed exactly if a role among the first 65 names discovered has a permission for it. */
  lemma DecisionExactly(roles: Roles, roots: seq<string>, action: string, resource: string)
    ensures Decision(roles, roots, action, resource) <==>
            exists i :: && 0 <= i < |Order(roles, roots)| && i < 65 && Order(roles, roots)[i] in roles
                        && Permits(roles[Order(roles, roots)[i]], action, resource)
  {
    var order := Order(roles, roots);
    var names := Capped(order);
    forall i | 0 <= i < |names|
      ensures Grants(roles, names[i], action, resource) <==>
              order[i] in roles && Permits(roles[order[i]], action, resource)
    {
      GrantsExactly(roles, names[i], action, resource);
    }
    hide Grants, Permits, Order;
    if i :| 0 <= i < |order| && i < 65 && order[i] in roles && Permits(roles[order[i]], action, resource) {
      assert Grants(roles, names[i], action, resource);
    }
  }

  /**
   The discovery order in terms of the roles themselves: a new name is followed by what its
   role's parents lead to, in the order in which the role lists them.
   */
  lemma OrderExactly(roles: Roles, first: string, rest: seq<string>, seen: seq<string>)
    ensures Order(roles, []) == []
    ensures Discover(Edges(roles), [first] + rest, seen) ==
            Discover(Edges(roles), rest,
                     if first in seen then seen
                     else if first !in roles then seen + [first]
                     else Discover(Edges(roles), roles[first].parents, seen + [first]))
  {
    DiscoverInTurn(Edges(roles), [first], rest, seen);
    if first in seen {
      assert [first][1..] == [];
    } else {
      DiscoverName(Edges(roles), first, seen);
    }
  }

  // ---- One search, as a relation between the names visited before and after ----

  ghost predicate NoneGrants(roles: Roles, names: seq<string>, from: nat, to: nat, action: string, resource: string)
    requires from <= to <= |names|
  {
    forall i :: from <= i < to ==> !Grants(roles, names[i], action, resource)
  }

  /**
   Searching the names in todo took the visited list from before to after: a failed search
   visited all that the uncapped one would, up to the cap; a successful one stopped at the
   first name that grants the request.
   */
  ghost predicate Searched(roles: Roles, todo: seq<string>, before: seq<string>, after: seq<string>,
                           found: bool, action: string, resource: string)
  {
    var full := Discover(Edges(roles), todo, before);
    && before <= after <= full
    && |after| <= MAX_NAMES
    && if found then
         && |before| < |after|
         && NoneGrants(roles, after, |before|, |after| - 1, action, resource)
         && Grants(roles, after[|after| - 1], action, resource)
       else
         && after == Capped(full)
         && NoneGrants(roles, after, |before|, |after|, action, resource)
  }

  lemma SearchNothing(roles: Roles, before: seq<string>, action: string, resource: string)
    requires |before| <= MAX_NAMES
    ensures Searched(roles, [], before, before, false, action, resource)
  {
  }

  lemma SearchInTurn(roles: Roles, first: seq<string>, second: seq<string>, before: seq<string>,
                     middle: seq<string>, after: seq<string>, found: bool, action: string, resource: string)
    requires NoDuplicates(before)
    requires Searched(roles, first, before, middle, false, action, resource)
    requires Searched(roles, second, middle, after, found, action, resource)
    ensures Searched(roles, first + second, before, after, found, action, resource)
  {
    var graph := Edges(roles);
    var full := Discover(graph, first, before);
    DiscoverInTurn(graph, first, second, before);
    DiscoverExtends(graph, first, before);
    DiscoverExtends(graph, second, full);
    assert forall i :: |before| <= i < |middle| ==> after[i] == middle[i];
  }

  lemma FoundEarly(roles: Roles, first: seq<string>, rest: seq<string>, before: seq<string>,
                   after: seq<string>, action: string, resource: string)
    requires NoDuplicates(before)
    requires Searched(roles, first, before, after, true, action, resource)
    ensures Searched(roles, first + rest, before, after, true, action, resource)
  {
    var graph := Edges(roles);
    DiscoverInTurn(graph, first, rest, before);
    DiscoverExtends(graph, first, before);
    DiscoverExtends(graph, rest, Discover(graph, first, before));
  }

  /** One more name searched by a loop over todo, which returns as soon as one is found. */
  lemma SearchNext(roles: Roles, todo: seq<string>, i: nat, before: seq<string>, middle: seq<string>,
                   after: seq<string>, found: bool, action: string, resource: string)
    requires i < |todo| && NoDuplicates(before)
    requires Searched(roles, todo[..i], before, middle, false, action, resource)
    requires Searched(roles, [todo[i]], middle, after, found, action, resource)
    ensures Searched(roles, if found then todo else todo[..i + 1], before, after, found, action, resource)
  {
    SearchInTurn(roles, todo[..i], [todo[i]], before, middle, after, found, action, resource);
    assert todo[..i] + [todo[i]] == todo[..i + 1];
    if found {
      FoundEarly(roles, todo[..i + 1], todo[i + 1..], before, after, action, resource);
      assert todo[..i + 1] + todo[i + 1..] == todo;
    }
  }

  lemma SearchRefused(roles: Roles, name: string, before: seq<string>, action: string, resource: string)
    requires NoDuplicates(before) && |before| <= MAX_NAMES
    requires name in before || |before| == MAX_NAMES
    ensures Searched(roles, [name], before, before, false, action, resource)
  {
    DiscoverExtends(Edges(roles), [name], before);
    if name in before {
      assert Discover(Edges(roles), [name], before) == Discover(Edges(roles), [], before);
    }
  }

  lemma SearchGranted(roles: Roles, name: string, before: seq<string>, action: string, resource: string)
    requires NoDuplicates(before) && |before| < MAX_NAMES
    requires name !in before && Grants(roles, name, action, resource)
    ensures Searched(roles, [name], before, before + [name], true, action, resource)
  {
    DiscoverName(Edges(roles), name, before);
    DiscoverExtends(Edges(roles), Parents(Edges(roles), name), before + [name]);
  }

  lemma SearchParents(roles: Roles, name: string, before: seq<string>, after: seq<string>,
                      found: bool, action: string, resource: string)
    requires name !in before && !Grants(roles, name, action, resource)
    requires Searched(roles, Parents(Edges(roles), name), before + [name], after, found, action, resource)
    ensures Searched(roles, [name], before, after, found, action, resource)
  {
    DiscoverName(Edges(roles), name, before);
    assert after[|before|] == (before + [name])[|before|];
  }

  lemma SearchedDecides(roles: Roles, roots: seq<string>, after: seq<string>,
                        found: bool, action: string, resource: string)
    requires Searched(roles, roots, [], after, found, action, resource)
    ensures found <==> Decision(roles, roots, action, resource)
    ensures after <= Order(roles, roots)
  {
    var names := Capped(Order(roles, roots));
    if found {
      assert names[|after| - 1] == after[|after| - 1];
    }
  }

  // ---- The store ----

  class MemoryStore {
    var roles: Roles
    var subjects: map<string, seq<string>>
    ghost var lookups: seq<string>  // the names GetRole was asked for, in order

    /** No subject is ever assigned a role twice. */
    ghost predicate Valid()
      reads this
    {
      forall s :: s in subjects ==> NoDuplicates(subjects[s])
    }

    constructor ()
      ensures Valid() && roles == map[] && subjects == map[]
    {
      roles := map[];
      subjects := map[];
      lookups := [];
    }

    method GetRole(name: string) returns (role: Option<Role>)
      modifies this`lookups
      ensures lookups == old(lookups) + [name]
      ensures role == if name in roles then Some(roles[name]) else None
    {
      lookups := lookups + [name];
      if name !in roles {
        return None;
      }
      role := Some(roles[name]);
    }

    function AssignedTo(subject: string): seq<string>
      reads this
    {
      if subject in subjects then subjects[subject] else []
    }

    method GetSubjectRoles(subject: string) returns (names: seq<string>)
      ensures names == if subject in subjects then subjects[subject] else []
    {
      names := if subject in subjects then subjects[subject] else [];
    }

    method AssignRole(subject: string, role: string)
      requires Valid()
      modifies this`subjects
      ensures Valid()
      ensures role in old(AssignedTo(subject)) ==> subjects == old(subjects)
      ensures role !in old(AssignedTo(subject)) ==>
                subjects == old(subjects)[subject := old(AssignedTo(subject)) + [role]]
    {
      var held := AssignedTo(subject);
      for i := 0 to |held|
        invariant role !in held[..i]
      {
        if held[i] == role {
          return;
        }
      }
      assert held[..|held|] == held;
      subjects := subjects[subject := held + [role]];
    }

    /** Removes the role entirely: the list holds it at most once, so the first match is the only one. */
    method UnassignRole(subject: string, role: string)
      requires Valid()
      modifies this`subjects
      ensures Valid()
      ensures role !in old(AssignedTo(subject)) ==> subjects == old(subjects)
      ensures role in old(AssignedTo(subject)) ==>
                exists i ::
                  var was := old(AssignedTo(subject));
                  && 0 <= i < |was| && was[i] == role
                  && subjects == old(subjects)[subject := was[..i] + was[i + 1..]]
      ensures role !in AssignedTo(subject)
    {
      var held := AssignedTo(subject);
      for i := 0 to |held|
        invariant role !in held[..i]
        invariant subjects == old(subjects)
      {
        if held[i] == role {
          subjects := subjects[subject := held[..i] + held[i + 1..]];
          return;
        }
      }
      assert held[..|held|] == held;
    }

    method AddRole(role: Role)
      modifies this`roles
      ensures roles == old(roles)[role.name := role]
    {
      roles := roles[role.name := role];
    }

    method RemoveRole(name: string)
      modifies this`roles
      ensures roles == old(roles) - {name}
    {
      roles := roles - {name};
    }
  }

  // ---- The enforcer ----

  /** The visited set that one call of Can shares among all its searches. */
  class Visited {
    var names: set<string>
    ghost var order: seq<string>  // the names in the order they were added

    ghost predicate Valid()
      reads this
    {
      && NoDuplicates(order)
      && names == Elements(order)
      && |order| <= MAX_NAMES
    }

    constructor ()
      ensures Valid() && order == []
    {
      names, order := {}, [];
    }

    method Add(name: string)
      requires Valid() && name !in names && |order| < MAX_NAMES
      modifies this
      ensures Valid() && order == old(order) + [name]
    {
      names, order := names + {name}, order + [name];
    }
  }

  class Enforcer {
    const store: MemoryStore

    constructor (store: MemoryStore)
      ensures this.store == store
    {
      this.store := store;
    }

    method RoleHasPermission(name: string, action: string, resource: string, visited: Visited) returns (found: bool)
      requires visited.Valid()
      modifies visited, store`lookups
      ensures visited.Valid()
      ensures old(visited.order) <= visited.order
      ensures store.lookups == old(store.lookups) + visited.order[|old(visited.order)|..]
      ensures Searched(store.roles, [name], old(visited.order), visited.order, found, action, resource)
      decreases MAX_NAMES - |visited.order|
    {
      hide Searched;
      ghost var roles, before := store.roles, visited.order;
      CardinalityOfDistinct(visited.order);
      if name in visited.names || |visited.names| > 64 {
        SearchRefused(roles, name, before, action, resource);
        return false;
      }
      visited.Add(name);
      ghost var start := visited.order;
      SearchNothing(roles, start, action, resource);

      var role := store.GetRole(name);
      if role.None? {
        SearchParents(roles, name, before, start, false, action, resource);
        return false;
      }
      var permissions := role.value.permissions;
      for i := 0 to |permissions|
        invariant forall j :: 0 <= j < i ==> !permissions[j].Matches(resource, action)
      {
        if permissions[i].Matches(resource, action) {
          SearchGranted(roles, name, before, action, resource);
          return true;
        }
      }
      var parents := role.value.parents;
      for i := 0 to |parents|
        invariant visited.Valid() && start <= visited.order
        invariant store.lookups == old(store.lookups) + visited.order[|before|..]
        invariant Searched(roles, parents[..i], start, visited.order, false, action, resource)
      {
        ghost var middle := visited.order;
        found := RoleHasPermission(parents[i], action, resource, visited);
        SearchNext(roles, parents, i, start, middle, visited.order, found, action, resource);
        if found {
          SearchParents(roles, name, before, visited.order, true, action, resource);
          return true;
        }
      }
      assert parents[..|parents|] == parents;
      SearchParents(roles, name, before, visited.order, false, action, resource);
      return false;
    }

    method Can(subject: string, action: string, resource: string) returns (allowed: bool, ghost asked: seq<string>)
      modifies store`lookups
      ensures allowed <==> Decision(store.roles, store.AssignedTo(subject), action, resource)
      ensures store.lookups == old(store.lookups) + asked
      ensures asked <= Order(store.roles, store.AssignedTo(subject))
      ensures NoDuplicates(asked) && |asked| <= MAX_NAMES
    {
      hide Searched, Decision;
      var roots := store.GetSubjectRoles(subject);
      ghost var roles := store.roles;
      var visited := new Visited();
      SearchNothing(roles, [], action, resource);
      for i := 0 to |roots|
        invariant visited.Valid() && fresh(visited)
        invariant store.lookups == old(store.lookups) + visited.order
        invariant Searched(roles, roots[..i], [], visited.order, false, action, resource)
      {
        ghost var middle := visited.order;
        allowed := RoleHasPermission(roots[i], action, resource, visited);
        SearchNext(roles, roots, i, [], middle, visited.order, allowed, action, resource);
        if allowed {
          SearchedDecides(roles, roots, visited.order, true, action, resource);
          return true, visited.order;
        }
      }
      assert roots[..|roots|] == roots;
      SearchedDecides(roles, roots, visited.order, false, action, resource);
      return false, visited.order;
    }
  }
}
