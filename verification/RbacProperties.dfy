/**
 What the capped role search promises: when its answer is inheritance, and what more
 assignments, larger roles or another order can do to it.
 */
module RbacProperties {
  import opened Wrappers
  import opened RoleGraph
  import opened Rbac

  lemma DecisionIsSound(roles: Roles, roots: seq<string>, action: string, resource: string)
    requires Decision(roles, roots, action, resource)
    ensures Inherits(roles, roots, action, resource)
  {
    DiscoverIsReachability(Edges(roles), roots);
  }

  /** Up to 65 reachable names, dangling ones included, the cap changes nothing. */
  lemma DecisionIsInheritance(roles: Roles, roots: seq<string>, action: string, resource: string)
    requires |ReachableNames(Edges(roles), roots)| <= MAX_NAMES
    ensures Decision(roles, roots, action, resource) <==> Inherits(roles, roots, action, resource)
  {
    DiscoverIsReachability(Edges(roles), roots);
    DiscoverCountsReachable(Edges(roles), roots);
  }

  /** A way from an assigned name up to a role, each name among the parents that the one before it lists. */
  ghost predicate IsLineage(roles: Roles, roots: seq<string>, path: seq<string>) {
    && path != [] && path[0] in roots && path[|path| - 1] in roles
    && forall i :: 0 <= i < |path| - 1 ==> path[i] in roles && path[i + 1] in roles[path[i]].parents
  }

  lemma InheritsExactly(roles: Roles, roots: seq<string>, action: string, resource: string)
    ensures Inherits(roles, roots, action, resource) <==>
            exists path :: IsLineage(roles, roots, path) && Permits(roles[path[|path| - 1]], action, resource)
  {
    hide Grants, Permits;
    if Inherits(roles, roots, action, resource) {
      var name :| Reaches(Edges(roles), roots, name) && Grants(roles, name, action, resource);
      GrantsExactly(roles, name, action, resource);
      var path :| IsPath(Edges(roles), path) && path[0] in roots && path[|path| - 1] == name;
      forall i | 0 <= i < |path| - 1 ensures path[i] in roles && path[i + 1] in roles[path[i]].parents {
        assert path[i + 1] in Parents(Edges(roles), path[i]);
      }
      assert IsLineage(roles, roots, path);
    }
    if path :| IsLineage(roles, roots, path) && Permits(roles[path[|path| - 1]], action, resource) {
      assert IsPath(Edges(roles), path);
      GrantsExactly(roles, path[|path| - 1], action, resource);
      assert Reaches(Edges(roles), roots, path[|path| - 1]);
    }
  }

  /**
   Access in terms of the roles themselves: what is allowed is permitted to a role on a line
   of parents from an assigned one, and with at most 65 reachable names nothing else is needed.
   */
  lemma AccessExactly(roles: Roles, roots: seq<string>, action: string, resource: string)
    ensures var inherited := exists path :: IsLineage(roles, roots, path)
                                         && Permits(roles[path[|path| - 1]], action, resource);
            && (Decision(roles, roots, action, resource) ==> inherited)
            && (|ReachableNames(Edges(roles), roots)| <= 65 ==> (inherited ==> Decision(roles, roots, action, resource)))
  {
    hide Decision, Inherits, Permits, ReachableNames;
    InheritsExactly(roles, roots, action, resource);
    if Decision(roles, roots, action, resource) {
      DecisionIsSound(roles, roots, action, resource);
    }
    if |ReachableNames(Edges(roles), roots)| <= MAX_NAMES {
      DecisionIsInheritance(roles, roots, action, resource);
    }
  }

  function WithPermissions(roles: Roles, permissions: map<string, seq<Permission>>): Roles {
    map name | name in roles ::
      roles[name].(permissions := if name in permissions then permissions[name] else [])
  }

  lemma OrderIgnoresPermissions(roles: Roles, roots: seq<string>, permissions: map<string, seq<Permission>>)
    ensures Order(WithPermissions(roles, permissions), roots) == Order(roles, roots)
  {
    assert Edges(WithPermissions(roles, permissions)) == Edges(roles);
  }

  ghost predicate ExactFor(roles: Roles, roots: seq<string>, permissions: map<string, seq<Permission>>,
                           action: string, resource: string)
  {
    var granted := WithPermissions(roles, permissions);
    Decision(granted, roots, action, resource) <==> Inherits(granted, roots, action, resource)
  }

  lemma ExactWhenTheRestDangles(roles: Roles, roots: seq<string>, permissions: map<string, seq<Permission>>,
                                action: string, resource: string)
    requires forall i :: MAX_NAMES <= i < |Order(roles, roots)| ==> Order(roles, roots)[i] !in roles
    ensures ExactFor(roles, roots, permissions, action, resource)
  {
    var granted := WithPermissions(roles, permissions);
    assert Edges(granted) == Edges(roles);
    var order := Order(roles, roots);
    DiscoverIsReachability(Edges(roles), roots);
    if Inherits(granted, roots, action, resource) {
      var name :| Reaches(Edges(granted), roots, name) && Grants(granted, name, action, resource);
      var i :| 0 <= i < |order| && order[i] == name;
      assert Capped(order)[i] == name;
    }
    if Decision(granted, roots, action, resource) {
      DecisionIsSound(granted, roots, action, resource);
    }
  }

  lemma InexactWhenARoleIsCutOff(roles: Roles, roots: seq<string>, i: nat)
    requires MAX_NAMES <= i < |Order(roles, roots)| && Order(roles, roots)[i] in roles
    ensures !ExactFor(roles, roots, map[Order(roles, roots)[i] := [Permission("*", "*")]], "read", "posts")
  {
    var order := Order(roles, roots);
    var granted := WithPermissions(roles, map[order[i] := [Permission("*", "*")]]);
    assert Edges(granted) == Edges(roles);
    DiscoverIsReachability(Edges(roles), roots);
    assert granted[order[i]].permissions[0].Matches("posts", "read");
    assert Reaches(Edges(granted), roots, order[i]);
    assert Inherits(granted, roots, "read", "posts");
    forall j | 0 <= j < MAX_NAMES ensures !Grants(granted, order[j], "read", "posts") {
      assert order[j] != order[i];
    }
  }

  /**
   A role graph is decided exactly, whatever permissions its roles carry, if and only if
   no existing role comes after the 65th name in discovery order.
   */
  lemma ExactForEveryPermission(roles: Roles, roots: seq<string>)
    ensures (forall permissions, action, resource :: ExactFor(roles, roots, permissions, action, resource))
            <==> (forall i :: MAX_NAMES <= i < |Order(roles, roots)| ==> Order(roles, roots)[i] !in roles)
  {
    hide ExactFor, Order;
    var order := Order(roles, roots);
    if forall i :: MAX_NAMES <= i < |order| ==> order[i] !in roles {
      forall permissions, action, resource ensures ExactFor(roles, roots, permissions, action, resource) {
        ExactWhenTheRestDangles(roles, roots, permissions, action, resource);
      }
    } else {
      var i :| MAX_NAMES <= i < |order| && order[i] in roles;
      InexactWhenARoleIsCutOff(roles, roots, i);
    }
  }

  // ---- Which graphs keep the promise about levels ----

  /** The name is an assigned one or at most this many levels above one. */
  ghost predicate IsWithinLevels(roles: Roles, roots: seq<string>, levels: nat, name: string) {
    exists path :: IsPath(Edges(roles), path) && |path| <= levels + 1 && path[0] in roots && path[|path| - 1] == name
  }

  ghost predicate InheritsWithinLevels(roles: Roles, roots: seq<string>, levels: nat, action: string, resource: string) {
    exists name :: IsWithinLevels(roles, roots, levels, name) && Grants(roles, name, action, resource)
  }

  /** Whatever the permissions, every grant at most this many levels up is found. */
  ghost predicate FindsAllLevels(roles: Roles, roots: seq<string>, levels: nat) {
    forall permissions, action, resource ::
      InheritsWithinLevels(WithPermissions(roles, permissions), roots, levels, action, resource) ==>
      Decision(WithPermissions(roles, permissions), roots, action, resource)
  }

  lemma LevelsIgnorePermissions(roles: Roles, roots: seq<string>, levels: nat, permissions: map<string, seq<Permission>>,
                                name: string)
    ensures IsWithinLevels(WithPermissions(roles, permissions), roots, levels, name) <==>
            IsWithinLevels(roles, roots, levels, name)
  {
    assert Edges(WithPermissions(roles, permissions)) == Edges(roles);
  }

  lemma LevelsAreFoundIfConsidered(roles: Roles, roots: seq<string>, levels: nat,
                                   permissions: map<string, seq<Permission>>, action: string, resource: string)
    requires forall i :: MAX_NAMES <= i < |Order(roles, roots)| && Order(roles, roots)[i] in roles ==>
               !IsWithinLevels(roles, roots, levels, Order(roles, roots)[i])
    requires InheritsWithinLevels(WithPermissions(roles, permissions), roots, levels, action, resource)
    ensures Decision(WithPermissions(roles, permissions), roots, action, resource)
  {
    var granted, order := WithPermissions(roles, permissions), Order(roles, roots);
    OrderIgnoresPermissions(roles, roots, permissions);
    DiscoverIsReachability(Edges(roles), roots);
    hide Discover;
    var name :| IsWithinLevels(granted, roots, levels, name) && Grants(granted, name, action, resource);
    LevelsIgnorePermissions(roles, roots, levels, permissions, name);
    assert Reaches(Edges(roles), roots, name);
    var i :| 0 <= i < |order| && order[i] == name;
    assert Capped(order)[i] == name;
  }

  /**
   Every grant within so many levels of the assigned roles is found, whatever the
   permissions, if and only if no existing role that close comes after the 65th name in
   discovery order. At 64 levels this is what the comment on the search promises.
   */
  lemma LevelsAreFoundExactly(roles: Roles, roots: seq<string>, levels: nat)
    ensures FindsAllLevels(roles, roots, levels) <==>
            forall i :: MAX_NAMES <= i < |Order(roles, roots)| && Order(roles, roots)[i] in roles ==>
              !IsWithinLevels(roles, roots, levels, Order(roles, roots)[i])
  {
    hide Order, Decision, InheritsWithinLevels, IsWithinLevels;
    var order := Order(roles, roots);
    if i :| MAX_NAMES <= i < |order| && order[i] in roles && IsWithinLevels(roles, roots, levels, order[i]) {
      CutOffLevelIsMissed(roles, roots, levels, i);
    } else {
      forall permissions, action, resource
        | InheritsWithinLevels(WithPermissions(roles, permissions), roots, levels, action, resource)
        ensures Decision(WithPermissions(roles, permissions), roots, action, resource)
      {
        LevelsAreFoundIfConsidered(roles, roots, levels, permissions, action, resource);
      }
    }
  }

  lemma CutOffLevelIsMissed(roles: Roles, roots: seq<string>, levels: nat, i: nat)
    requires MAX_NAMES <= i < |Order(roles, roots)| && Order(roles, roots)[i] in roles
    requires IsWithinLevels(roles, roots, levels, Order(roles, roots)[i])
    ensures !FindsAllLevels(roles, roots, levels)
  {
    hide Order, IsWithinLevels;
    var name := Order(roles, roots)[i];
    var only := map[name := [Permission("*", "*")]];
    var granted := WithPermissions(roles, only);
    LevelsIgnorePermissions(roles, roots, levels, only, name);
    InexactWhenARoleIsCutOff(roles, roots, i);
    assert granted[name].permissions[0].Matches("posts", "read");
    assert InheritsWithinLevels(granted, roots, levels, "read", "posts");
    if Decision(granted, roots, "read", "posts") {
      DecisionIsSound(granted, roots, "read", "posts");
    }
  }

  // ---- More access never means less ----

  /** Assigning one more role keeps every allowed request allowed, however large the graph. */
  lemma AssignmentKeepsAccess(roles: Roles, roots: seq<string>, role: string, action: string, resource: string)
    requires Decision(roles, roots, action, resource)
    ensures Decision(roles, roots + [role], action, resource)
  {
    var graph := Edges(roles);
    DiscoverInTurn(graph, roots, [role], []);
    DiscoverExtends(graph, roots, []);
    DiscoverExtends(graph, [role], Order(roles, roots));
    var names := Capped(Order(roles, roots));
    var i :| 0 <= i < |names| && Grants(roles, names[i], action, resource);
    assert Capped(Order(roles, roots + [role]))[i] == names[i];
  }

  ghost predicate Enlarges(larger: Roles, roles: Roles) {
    forall name :: name in roles ==>
      && name in larger
      && (forall p :: p in roles[name].parents ==> p in larger[name].parents)
      && (forall p :: p in roles[name].permissions ==> p in larger[name].permissions)
  }

  lemma EnlargingKeepsInheritance(roles: Roles, larger: Roles, roots: seq<string>, moreRoots: seq<string>,
                                  action: string, resource: string)
    requires Enlarges(larger, roles) && (forall n :: n in roots ==> n in moreRoots)
    requires Inherits(roles, roots, action, resource)
    ensures Inherits(larger, moreRoots, action, resource)
  {
    var name :| Reaches(Edges(roles), roots, name) && Grants(roles, name, action, resource);
    var path :| IsPath(Edges(roles), path) && path[0] in roots && path[|path| - 1] == name;
    forall i | 0 <= i < |path| - 1 ensures path[i + 1] in Parents(Edges(larger), path[i]) {
      assert path[i + 1] in Parents(Edges(roles), path[i]);
    }
    assert Reaches(Edges(larger), moreRoots, name);
    var i :| 0 <= i < |roles[name].permissions| && roles[name].permissions[i].Matches(resource, action);
    assert roles[name].permissions[i] in larger[name].permissions;
  }

  /** Below the cap, larger roles and more roots, in whatever order, keep every allowed request allowed. */
  lemma EnlargingKeepsAccess(roles: Roles, larger: Roles, roots: seq<string>, moreRoots: seq<string>,
                             action: string, resource: string)
    requires Enlarges(larger, roles) && (forall n :: n in roots ==> n in moreRoots)
    requires |ReachableNames(Edges(larger), moreRoots)| <= MAX_NAMES
    requires Decision(roles, roots, action, resource)
    ensures Decision(larger, moreRoots, action, resource)
  {
    DecisionIsSound(roles, roots, action, resource);
    EnlargingKeepsInheritance(roles, larger, roots, moreRoots, action, resource);
    DecisionIsInheritance(larger, moreRoots, action, resource);
  }

  /** Below the cap, adding a role, or replacing one by a larger one, keeps every allowed request allowed. */
  lemma AddingARoleKeepsAccess(roles: Roles, role: Role, roots: seq<string>, action: string, resource: string)
    requires role.name in roles ==>
               && (forall p :: p in roles[role.name].parents ==> p in role.parents)
               && (forall p :: p in roles[role.name].permissions ==> p in role.permissions)
    requires |ReachableNames(Edges(roles[role.name := role]), roots)| <= MAX_NAMES
    requires Decision(roles, roots, action, resource)
    ensures Decision(roles[role.name := role], roots, action, resource)
  {
    hide Decision, ReachableNames;
    EnlargingKeepsAccess(roles, roles[role.name := role], roots, roots, action, resource);
  }

  /** Below the cap, the order of assigned roles, parents and permissions is irrelevant. */
  lemma OrderIsIrrelevant(roles: Roles, reordered: Roles, roots: seq<string>, reorderedRoots: seq<string>,
                          action: string, resource: string)
    requires Enlarges(reordered, roles) && Enlarges(roles, reordered)
    requires forall n :: n in roots <==> n in reorderedRoots
    requires |ReachableNames(Edges(roles), roots)| <= MAX_NAMES
    requires |ReachableNames(Edges(reordered), reorderedRoots)| <= MAX_NAMES
    ensures Decision(roles, roots, action, resource) <==> Decision(reordered, reorderedRoots, action, resource)
  {
    if Decision(roles, roots, action, resource) {
      EnlargingKeepsAccess(roles, reordered, roots, reorderedRoots, action, resource);
    }
    if Decision(reordered, reorderedRoots, action, resource) {
      EnlargingKeepsAccess(reordered, roles, reorderedRoots, roots, action, resource);
    }
  }

  // ---- The cap counts names, not levels ----

  function Level(n: nat): string {
    seq(n, _ => 'x')
  }

  function Levels(n: nat): seq<string> {
    seq(n, i requires 0 <= i < n => Level(i))
  }

  const EVERYTHING := [Permission("*", "*")]

  /** Level 0 inherits from level 1 and so on, and the last of the n + 1 levels grants everything. */
  function Chain(n: nat): Roles {
    map name | name in Levels(n + 1) ::
      Role(name, if |name| < n then [Level(|name| + 1)] else [], if |name| < n then [] else EVERYTHING)
  }

  lemma ChainParents(n: nat, i: nat)
    requires i <= n
    ensures Parents(Edges(Chain(n)), Level(i)) == if i < n then [Level(i + 1)] else []
  {
    assert Levels(n + 1)[i] == Level(i);
    assert |Level(i)| == i;
  }

  lemma LevelsAreDistinct(n: nat)
    ensures NoDuplicates(Levels(n)) && Level(n) !in Levels(n)
    ensures Levels(n + 1) == Levels(n) + [Level(n)]
  {
    assert forall i :: 0 <= i < n ==> |Levels(n)[i]| == i;
  }

  lemma {:induction false} ChainOrder(n: nat, i: nat)
    requires i <= n
    ensures Discover(Edges(Chain(n)), [Level(i)], Levels(i)) == Levels(n + 1)
    decreases n - i
  {
    LevelsAreDistinct(i);
    DiscoverName(Edges(Chain(n)), Level(i), Levels(i));
    ChainParents(n, i);
    if i < n {
      ChainOrder(n, i + 1);
    }
  }

  lemma ChainGrantsAtTheEnd(n: nat, i: nat, action: string, resource: string)
    requires i <= n
    ensures Grants(Chain(n), Level(i), action, resource) <==> i == n
  {
    assert Levels(n + 1)[i] == Level(i);
    assert |Level(i)| == i;
    if i == n {
      assert Chain(n)[Level(n)].permissions[0].Matches(resource, action);
    }
  }

  /** When only the last name in discovery order grants, the cap decides. */
  lemma OnlyTheLastGrants(roles: Roles, roots: seq<string>, n: nat, action: string, resource: string)
    requires |Order(roles, roots)| == n + 1
    requires forall i :: 0 <= i <= n ==> (Grants(roles, Order(roles, roots)[i], action, resource) <==> i == n)
    ensures Inherits(roles, roots, action, resource)
    ensures Decision(roles, roots, action, resource) <==> n + 1 <= MAX_NAMES
  {
    var order := Order(roles, roots);
    DiscoverIsReachability(Edges(roles), roots);
    assert order[n] in order;
    if n < MAX_NAMES {
      assert Capped(order)[n] == order[n];
    }
  }

  /** Along a single line of inheritance the cap is indeed 64 levels. */
  lemma ChainIsAllowedUpTo64Levels(n: nat, action: string, resource: string)
    ensures Inherits(Chain(n), [Level(0)], action, resource)
    ensures Decision(Chain(n), [Level(0)], action, resource) <==> n <= 64
  {
    var order := Order(Chain(n), [Level(0)]);
    assert order == Levels(n + 1) by {
      assert Levels(0) == [];
      ChainOrder(n, 0);
    }
    forall i | 0 <= i <= n ensures Grants(Chain(n), order[i], action, resource) <==> i == n {
      ChainGrantsAtTheEnd(n, i, action, resource);
    }
    OnlyTheLastGrants(Chain(n), [Level(0)], n, action, resource);
  }

  /** Only the role named Level(n) exists; it inherits nothing and grants everything. */
  function Alone(n: nat): Roles {
    map[Level(n) := Role(Level(n), [], EVERYTHING)]
  }

  lemma AloneGrants(n: nat, name: string, action: string, resource: string)
    ensures Grants(Alone(n), name, action, resource) <==> name == Level(n)
  {
    if name == Level(n) {
      assert Alone(n)[name].permissions[0].Matches(resource, action);
    }
  }

  lemma WideOrder(n: nat)
    ensures Order(Alone(n), Levels(n + 1)) == Levels(n + 1)
    ensures Levels(n + 1)[n] == Level(n)
  {
    LevelsAreDistinct(n + 1);
    assert [] + Levels(n + 1) == Levels(n + 1);
    DiscoverFlat(Edges(Alone(n)), Levels(n + 1), []);
  }

  /**
   A subject assigned n + 1 roles, of which the last grants everything and the others
   are missing from the store: the cap bites although nothing is inherited at all.
   */
  lemma WideAssignmentIsAllowedUpTo65Names(n: nat, action: string, resource: string)
    ensures Inherits(Alone(n), Levels(n + 1), action, resource)
    ensures Decision(Alone(n), Levels(n + 1), action, resource) <==> n + 1 <= MAX_NAMES
  {
    var names := Levels(n + 1);
    WideOrder(n);
    LevelsAreDistinct(n + 1);
    forall i | 0 <= i <= n ensures Grants(Alone(n), names[i], action, resource) <==> i == n {
      AloneGrants(n, names[i], action, resource);
    }
    OnlyTheLastGrants(Alone(n), names, n, action, resource);
  }

  /** Whatever the permissions, every request that the first graph allows is allowed by the second. */
  ghost predicate KeepsAccess(roles: Roles, roots: seq<string>, larger: Roles, moreRoots: seq<string>) {
    forall permissions, action, resource ::
      Decision(WithPermissions(roles, permissions), roots, action, resource) ==>
      Decision(WithPermissions(larger, permissions), moreRoots, action, resource)
  }

  /** Every existing role that the first search considers is considered by the second. */
  ghost predicate ConsidersAsMany(roles: Roles, roots: seq<string>, larger: Roles, moreRoots: seq<string>) {
    forall name :: name in roles && name in Capped(Order(roles, roots)) ==> name in Capped(Order(larger, moreRoots))
  }

  lemma KeepsAccessIfConsidered(roles: Roles, roots: seq<string>, larger: Roles, moreRoots: seq<string>,
                                permissions: map<string, seq<Permission>>, action: string, resource: string)
    requires roles.Keys <= larger.Keys && ConsidersAsMany(roles, roots, larger, moreRoots)
    requires Decision(WithPermissions(roles, permissions), roots, action, resource)
    ensures Decision(WithPermissions(larger, permissions), moreRoots, action, resource)
  {
    hide Order;
    OrderIgnoresPermissions(roles, roots, permissions);
    OrderIgnoresPermissions(larger, moreRoots, permissions);
    var names, more := Capped(Order(roles, roots)), Capped(Order(larger, moreRoots));
    var i :| 0 <= i < |names| && Grants(WithPermissions(roles, permissions), names[i], action, resource);
    assert names[i] in roles && names[i] in names;
    var j :| 0 <= j < |more| && more[j] == names[i];
    assert Grants(WithPermissions(larger, permissions), more[j], action, resource);
  }

  lemma LosesAccessIfNotConsidered(roles: Roles, roots: seq<string>, larger: Roles, moreRoots: seq<string>,
                                   name: string)
    requires name in roles && name in Capped(Order(roles, roots)) && name !in Capped(Order(larger, moreRoots))
    ensures !KeepsAccess(roles, roots, larger, moreRoots)
  {
    hide Order;
    var only := map[name := EVERYTHING];
    OrderIgnoresPermissions(roles, roots, only);
    OrderIgnoresPermissions(larger, moreRoots, only);
    var names := Capped(Order(roles, roots));
    var i :| 0 <= i < |names| && names[i] == name;
    assert WithPermissions(roles, only)[name].permissions[0].Matches("posts", "read");
    assert Grants(WithPermissions(roles, only), names[i], "read", "posts");
    assert Decision(WithPermissions(roles, only), roots, "read", "posts");
    assert !Decision(WithPermissions(larger, only), moreRoots, "read", "posts");
  }

  /**
   For any change of graph and roots that removes no role, larger or only reordered: every
   allowed request stays allowed, whatever permissions the roles carry, if and only if the
   new search still considers every existing role that the old one did.
   */
  lemma KeepsAccessExactly(roles: Roles, roots: seq<string>, larger: Roles, moreRoots: seq<string>)
    requires roles.Keys <= larger.Keys
    ensures KeepsAccess(roles, roots, larger, moreRoots) <==> ConsidersAsMany(roles, roots, larger, moreRoots)
  {
    hide Decision, Order;
    if ConsidersAsMany(roles, roots, larger, moreRoots) {
      forall permissions, action, resource | Decision(WithPermissions(roles, permissions), roots, action, resource)
        ensures Decision(WithPermissions(larger, permissions), moreRoots, action, resource)
      {
        KeepsAccessIfConsidered(roles, roots, larger, moreRoots, permissions, action, resource);
      }
    } else {
      var name :| name in roles && name in Capped(Order(roles, roots)) && name !in Capped(Order(larger, moreRoots));
      LosesAccessIfNotConsidered(roles, roots, larger, moreRoots, name);
    }
  }

  /** The roles of Alone(n + 1) after AddRole with a role that has n missing parents. */
  function Crowded(n: nat): Roles {
    Alone(n + 1)[Level(0) := Role(Level(0), Levels(n + 1)[1..], [])]
  }

  /**
   Above the cap a larger role can take access away: the subject is allowed through its
   second role until the first one is defined with n missing parents, n being 64 or more.
   */
  lemma AddingARoleCanTakeAccessAway(n: nat, action: string, resource: string)
    ensures Decision(Alone(n + 1), [Level(0), Level(n + 1)], action, resource)
    ensures Decision(Crowded(n), [Level(0), Level(n + 1)], action, resource) <==> n + 2 <= MAX_NAMES
  {
    var names, roots := Levels(n + 2), [Level(0), Level(n + 1)];
    var larger := Crowded(n);
    AllowedThroughTheSecondRole(n, action, resource);
    CrowdedOrder(n);
    LevelsAreDistinct(n + 2);
    forall i | 0 <= i <= n + 1 ensures Grants(larger, names[i], action, resource) <==> i == n + 1 {
      AloneGrants(n + 1, names[i], action, resource);
      assert |names[i]| == i;
    }
    OnlyTheLastGrants(larger, roots, n + 1, action, resource);
  }

  lemma AllowedThroughTheSecondRole(n: nat, action: string, resource: string)
    ensures Decision(Alone(n + 1), [Level(0), Level(n + 1)], action, resource)
  {
    var roots := [Level(0), Level(n + 1)];
    assert |Level(0)| == 0 && |Level(n + 1)| == n + 1;
    assert [] + roots == roots;
    DiscoverFlat(Edges(Alone(n + 1)), roots, []);
    AloneGrants(n + 1, roots[1], action, resource);
    assert Capped(roots)[1] == Level(n + 1);
  }

  lemma CrowdedOrder(n: nat)
    ensures Order(Crowded(n), [Level(0), Level(n + 1)]) == Levels(n + 2)
  {
    var roots, parents := [Level(0), Level(n + 1)], Levels(n + 1)[1..];
    var graph := Edges(Crowded(n));
    LevelsAreDistinct(n + 1);
    LevelsAreDistinct(n + 2);
    assert Levels(n + 2) == [Level(0)] + (parents + [Level(n + 1)]);
    assert Parents(graph, Level(0)) == parents;
    assert [] + [Level(0)] == [Level(0)] && roots[1..] == [Level(n + 1)];
    forall name | name in parents + [Level(n + 1)] ensures Parents(graph, name) == [] {
      assert |name| != 0;
    }
    DiscoverFlat(graph, parents + [Level(n + 1)], [Level(0)]);
  }
}
