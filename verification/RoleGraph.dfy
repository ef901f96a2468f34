/**
 The role graph of the rbac package and the order in which an uncapped depth-first
 search discovers its names. Edges lead from a role to its parents; the graph may have
 cycles, and a parent or an assigned name may have no role behind it (it dangles).
 */
module RoleGraph {
  import opened Wrappers

  type Graph<Name> = map<Name, seq<Name>>

  function Parents<Name>(graph: Graph<Name>, name: Name): seq<Name> {
    if name in graph then graph[name] else []
  }

  // ---- What inheritance means: reachability along parent edges ----

  ghost predicate IsPath<Name(!new)>(graph: Graph<Name>, path: seq<Name>) {
    && path != []
    && forall i :: 0 <= i < |path| - 1 ==> path[i + 1] in Parents(graph, path[i])
  }

  ghost predicate Reaches<Name(!new)>(graph: Graph<Name>, roots: seq<Name>, name: Name) {
    exists path :: IsPath(graph, path) && path[0] in roots && path[|path| - 1] == name
  }

  ghost function Mentioned<Name(!new)>(graph: Graph<Name>, roots: seq<Name>): set<Name> {
    (set k, p | k in graph && p in graph[k] :: p) + Elements(roots)
  }

  ghost function ReachableNames<Name(!new)>(graph: Graph<Name>, roots: seq<Name>): set<Name> {
    set name | name in Mentioned(graph, roots) && Reaches(graph, roots, name)
  }

  // ---- Depth-first discovery ----

  ghost function Unexplored<Name(!new)>(graph: Graph<Name>, seen: seq<Name>): set<Name> {
    graph.Keys - Elements(seen)
  }

  /** Visiting a new name leaves less to explore, unless the name dangles. */
  lemma VisitingShrinks<Name(!new)>(graph: Graph<Name>, name: Name, seen: seq<Name>)
    requires name !in seen
    ensures |Unexplored(graph, seen + [name])| <= |Unexplored(graph, seen)|
    ensures name in graph ==> |Unexplored(graph, seen + [name])| < |Unexplored(graph, seen)|
  {
    assert Elements(seen + [name]) == Elements(seen) + {name};
    SubsetCardinality(Unexplored(graph, seen + [name]), Unexplored(graph, seen));
  }

  /**
   Every name in the order in which a depth-first search without a cap visits it, after
   the names already seen: each new name comes before its parents, and its parents'
   subgraphs come before the names still waiting.
   */
  ghost function Discover<Name(!new)>(graph: Graph<Name>, todo: seq<Name>, seen: seq<Name>): seq<Name>
    decreases |Unexplored(graph, seen)|, |todo|
  {
    if todo == [] then seen
    else
      if todo[0] in seen then
        Discover(graph, todo[1..], seen)
      else
        VisitingShrinks(graph, todo[0], seen);
        Discover(graph, Parents(graph, todo[0]) + todo[1..], seen + [todo[0]])
  }

  lemma {:induction false} DiscoverExtends<Name(!new)>(graph: Graph<Name>, todo: seq<Name>, seen: seq<Name>)
    requires NoDuplicates(seen)
    ensures seen <= Discover(graph, todo, seen)
    ensures NoDuplicates(Discover(graph, todo, seen))
    decreases |Unexplored(graph, seen)|, |todo|
  {
    if todo != [] {
      if todo[0] in seen {
        DiscoverExtends(graph, todo[1..], seen);
      } else {
        VisitingShrinks(graph, todo[0], seen);
        DiscoverExtends(graph, Parents(graph, todo[0]) + todo[1..], seen + [todo[0]]);
        assert seen <= seen + [todo[0]];
      }
    }
  }

  /** Searching from two lists in turn, with one shared visited set, is one search. */
  lemma {:induction false} DiscoverInTurn<Name(!new)>(graph: Graph<Name>, first: seq<Name>, second: seq<Name>,
                                                      seen: seq<Name>)
    ensures Discover(graph, first + second, seen) == Discover(graph, second, Discover(graph, first, seen))
    decreases |Unexplored(graph, seen)|, |first|
  {
    if first == [] {
      assert first + second == second;
    } else {
      assert (first + second)[1..] == first[1..] + second;
      if first[0] in seen {
        DiscoverInTurn(graph, first[1..], second, seen);
      } else {
        VisitingShrinks(graph, first[0], seen);
        var parents := Parents(graph, first[0]);
        assert parents + (first[1..] + second) == (parents + first[1..]) + second;
        DiscoverInTurn(graph, parents + first[1..], second, seen + [first[0]]);
      }
    }
  }

  /** Visiting a new name means visiting its parents next. */
  lemma DiscoverName<Name(!new)>(graph: Graph<Name>, name: Name, seen: seq<Name>)
    requires name !in seen
    ensures Discover(graph, [name], seen) == Discover(graph, Parents(graph, name), seen + [name])
  {
    assert Parents(graph, name) + [name][1..] == Parents(graph, name);
  }

  // ---- Discovery is reachability ----

  lemma {:induction false} DiscoverIsSound<Name(!new)>(graph: Graph<Name>, roots: seq<Name>, todo: seq<Name>,
                                                       seen: seq<Name>)
    requires forall n :: n in todo || n in seen ==> Reaches(graph, roots, n)
    ensures forall n :: n in Discover(graph, todo, seen) ==> Reaches(graph, roots, n)
    decreases |Unexplored(graph, seen)|, |todo|
  {
    if todo != [] {
      if todo[0] in seen {
        DiscoverIsSound(graph, roots, todo[1..], seen);
      } else {
        VisitingShrinks(graph, todo[0], seen);
        var parents := Parents(graph, todo[0]);
        assert todo[0] in todo;
        forall p | p in parents ensures Reaches(graph, roots, p) {
          ReachesStep(graph, roots, todo[0], p);
        }
        DiscoverIsSound(graph, roots, parents + todo[1..], seen + [todo[0]]);
      }
    }
  }

  lemma ReachesStep<Name(!new)>(graph: Graph<Name>, roots: seq<Name>, name: Name, parent: Name)
    requires Reaches(graph, roots, name) && parent in Parents(graph, name)
    ensures Reaches(graph, roots, parent)
  {
    var path :| IsPath(graph, path) && path[0] in roots && path[|path| - 1] == name;
    assert IsPath(graph, path + [parent]);
    assert (path + [parent])[|path|] == parent;
  }

  ghost predicate Closed<Name(!new)>(graph: Graph<Name>, inside: seq<Name>, frontier: seq<Name>) {
    forall n, p :: n in inside && p in Parents(graph, n) ==> p in inside || p in frontier
  }

  lemma ClosedAfterVisit<Name(!new)>(graph: Graph<Name>, todo: seq<Name>, seen: seq<Name>)
    requires todo != [] && Closed(graph, seen, todo)
    ensures Closed(graph, seen + [todo[0]], Parents(graph, todo[0]) + todo[1..])
  {
    var inside, frontier := seen + [todo[0]], Parents(graph, todo[0]) + todo[1..];
    forall n, p | n in inside && p in Parents(graph, n) ensures p in inside || p in frontier {
      if n in seen {
        assert p in seen || p in todo;
      }
    }
  }

  lemma ClosedAfterSkip<Name(!new)>(graph: Graph<Name>, todo: seq<Name>, seen: seq<Name>)
    requires todo != [] && Closed(graph, seen, todo) && todo[0] in seen
    ensures Closed(graph, seen, todo[1..])
  {
  }

  /** The search leaves nothing out: what it has seen is closed under parents at the end. */
  lemma {:induction false} DiscoverIsClosed<Name(!new)>(graph: Graph<Name>, todo: seq<Name>, seen: seq<Name>)
    requires Closed(graph, seen, todo)
    ensures Closed(graph, Discover(graph, todo, seen), [])
    decreases |Unexplored(graph, seen)|, |todo|
  {
    if todo != [] {
      if todo[0] in seen {
        ClosedAfterSkip(graph, todo, seen);
        DiscoverIsClosed(graph, todo[1..], seen);
      } else {
        VisitingShrinks(graph, todo[0], seen);
        ClosedAfterVisit(graph, todo, seen);
        DiscoverIsClosed(graph, Parents(graph, todo[0]) + todo[1..], seen + [todo[0]]);
      }
    }
  }

  lemma {:induction false} DiscoverFinds<Name(!new)>(graph: Graph<Name>, todo: seq<Name>, seen: seq<Name>, name: Name)
    requires name in todo || name in seen
    ensures name in Discover(graph, todo, seen)
    decreases |Unexplored(graph, seen)|, |todo|
  {
    if todo != [] {
      if todo[0] in seen {
        DiscoverFinds(graph, todo[1..], seen, name);
      } else {
        VisitingShrinks(graph, todo[0], seen);
        assert name in seen + [todo[0]] || name in Parents(graph, todo[0]) + todo[1..];
        DiscoverFinds(graph, Parents(graph, todo[0]) + todo[1..], seen + [todo[0]], name);
      }
    }
  }

  lemma {:induction false} ClosedContainsPaths<Name(!new)>(graph: Graph<Name>, inside: seq<Name>, path: seq<Name>)
    requires Closed(graph, inside, []) && IsPath(graph, path) && path[0] in inside
    ensures path[|path| - 1] in inside
  {
    if |path| > 1 {
      assert path[1] in Parents(graph, path[0]);
      ClosedContainsPaths(graph, inside, path[1..]);
    }
  }

  lemma ReachableIsMentioned<Name(!new)>(graph: Graph<Name>, roots: seq<Name>, name: Name)
    requires Reaches(graph, roots, name)
    ensures name in Mentioned(graph, roots)
  {
    var path :| IsPath(graph, path) && path[0] in roots && path[|path| - 1] == name;
    if |path| > 1 {
      assert path[|path| - 2 + 1] in Parents(graph, path[|path| - 2]);
    }
  }

  /** The discovery order lists each reachable name, nothing else, and each once. */
  lemma DiscoverIsReachability<Name(!new)>(graph: Graph<Name>, roots: seq<Name>)
    ensures forall n :: n in Discover(graph, roots, []) <==> Reaches(graph, roots, n)
    ensures NoDuplicates(Discover(graph, roots, []))
  {
    var order := Discover(graph, roots, []);
    forall n | n in roots ensures Reaches(graph, roots, n) {
      assert IsPath(graph, [n]);
    }
    DiscoverIsSound(graph, roots, roots, []);
    DiscoverIsClosed(graph, roots, []);
    DiscoverExtends(graph, roots, []);
    forall n | Reaches(graph, roots, n) ensures n in order {
      var path :| IsPath(graph, path) && path[0] in roots && path[|path| - 1] == n;
      DiscoverFinds(graph, roots, [], path[0]);
      ClosedContainsPaths(graph, order, path);
    }
  }

  lemma DiscoverCountsReachable<Name(!new)>(graph: Graph<Name>, roots: seq<Name>)
    ensures |Discover(graph, roots, [])| == |ReachableNames(graph, roots)|
  {
    var order, names := Discover(graph, roots, []), ReachableNames(graph, roots);
    DiscoverIsReachability(graph, roots);
    forall n | n in order ensures n in names {
      ReachableIsMentioned(graph, roots, n);
    }
    assert Elements(order) == names;
    CardinalityOfDistinct(order);
  }

  /** Names without parents are discovered in the order they are listed. */
  lemma {:induction false} DiscoverFlat<Name(!new)>(graph: Graph<Name>, todo: seq<Name>, seen: seq<Name>)
    requires NoDuplicates(seen + todo)
    requires forall n :: n in todo ==> Parents(graph, n) == []
    ensures Discover(graph, todo, seen) == seen + todo
    decreases |todo|
  {
    if todo != [] {
      forall i | 0 <= i < |seen| ensures seen[i] != todo[0] {
        assert (seen + todo)[i] == seen[i];
        assert (seen + todo)[|seen|] == todo[0];
      }
      assert seen + todo == seen + [todo[0]] + todo[1..];
      assert Parents(graph, todo[0]) + todo[1..] == todo[1..];
      DiscoverFlat(graph, todo[1..], seen + [todo[0]]);
    }
  }
}
