/**
 Attribute-based policies: the policy store, which walks a map in no particular order and
 sorts by priority, and the evaluator that takes the first matching policy.
 */
module Abac {
  import opened Wrappers

  datatype Effect = Allow | Deny

  datatype Request = Request(subject: map<string, string>, resource: map<string, string>,
                             action: string, environment: map<string, string>)

  type Condition = Request -> bool

  /** A policy without a condition matches every request. */
  datatype Policy = Policy(id: string, effect: Effect, condition: Option<Condition>, priority: int)

  predicate Applies(p: Policy, req: Request) {
    p.condition.None? || p.condition.value(req)
  }

  datatype Decision = Decision(allowed: bool, matchedPolicy: string)

  // ---- Sorting ----

  ghost predicate Sorted(s: seq<Policy>) {
    forall i, j :: 0 <= i < j < |s| ==> s[i].priority >= s[j].priority
  }

  /** Puts p in front of the first policy whose priority is not higher. */
  function Insert(p: Policy, s: seq<Policy>): seq<Policy> {
    if s == [] || p.priority >= s[0].priority then [p] + s else [s[0]] + Insert(p, s[1..])
  }

  /** The stable sort by descending priority. */
  function SortByPriority(s: seq<Policy>): seq<Policy> {
    if s == [] then [] else Insert(s[0], SortByPriority(s[1..]))
  }

  lemma {:induction false} InsertSorts(p: Policy, s: seq<Policy>)
    requires Sorted(s)
    ensures Sorted(Insert(p, s))
    ensures forall q :: q in Insert(p, s) <==> q == p || q in s
  {
    if s != [] && p.priority < s[0].priority {
      InsertSorts(p, s[1..]);
      var rest := Insert(p, s[1..]);
      forall q | q in rest ensures q.priority <= s[0].priority {
        assert q == p || q in s[1..];
      }
      assert forall q :: q in s <==> q == s[0] || q in s[1..];
    }
  }

  lemma {:induction false} SortSorts(s: seq<Policy>)
    ensures Sorted(SortByPriority(s))
    ensures forall q :: q in SortByPriority(s) <==> q in s
  {
    if s != [] {
      SortSorts(s[1..]);
      InsertSorts(s[0], SortByPriority(s[1..]));
    }
  }

  function WithPriority(s: seq<Policy>, priority: int): seq<Policy> {
    if s == [] then []
    else (if s[0].priority == priority then [s[0]] else []) + WithPriority(s[1..], priority)
  }

  lemma {:induction false} InsertIsStable(p: Policy, s: seq<Policy>, priority: int)
    requires Sorted(s)
    ensures WithPriority(Insert(p, s), priority) == WithPriority([p] + s, priority)
  {
    assert ([p] + s)[1..] == s;
    if s != [] && p.priority < s[0].priority {
      InsertIsStable(p, s[1..], priority);
      assert ([s[0]] + Insert(p, s[1..]))[1..] == Insert(p, s[1..]);
      assert ([p] + s[1..])[1..] == s[1..];
    }
  }

  /** Sorting keeps all policies of one priority, with repetitions, in their order. */
  lemma {:induction false} SortIsStable(s: seq<Policy>, priority: int)
    ensures Sorted(SortByPriority(s)) && WithPriority(SortByPriority(s), priority) == WithPriority(s, priority)
  {
    SortSorts(s);
    if s != [] {
      SortSorts(s[1..]);
      SortIsStable(s[1..], priority);
      InsertIsStable(s[0], SortByPriority(s[1..]), priority);
      assert ([s[0]] + SortByPriority(s[1..]))[1..] == SortByPriority(s[1..]);
    }
  }

  // ---- First match ----

  function FirstMatch(s: seq<Policy>, req: Request): Option<Policy> {
    if s == [] then None
    else if Applies(s[0], req) then Some(s[0])
    else FirstMatch(s[1..], req)
  }

  /** The matching policy of highest priority; among equals the one that comes first. */
  function Best(s: seq<Policy>, req: Request): Option<Policy> {
    if s == [] then None
    else
      var rest := Best(s[1..], req);
      if Applies(s[0], req) && (rest.None? || s[0].priority >= rest.value.priority) then Some(s[0]) else rest
  }

  lemma {:induction false} FirstMatchAfterInsert(p: Policy, s: seq<Policy>, req: Request)
    requires Sorted(s)
    ensures var rest := FirstMatch(s, req);
            FirstMatch(Insert(p, s), req) ==
            if Applies(p, req) && (rest.None? || p.priority >= rest.value.priority) then Some(p) else rest
    ensures FirstMatch(s, req).Some? ==> FirstMatch(s, req).value in s && Applies(FirstMatch(s, req).value, req)
  {
    if s != [] {
      FirstMatchAfterInsert(p, s[1..], req);
      if p.priority >= s[0].priority {
        assert ([p] + s)[1..] == s;
      } else {
        assert ([s[0]] + Insert(p, s[1..]))[1..] == Insert(p, s[1..]);
      }
    }
  }

  /** Sorting stably and taking the first match finds the best policy. */
  lemma {:induction false} FirstMatchOfSorted(s: seq<Policy>, req: Request)
    ensures FirstMatch(SortByPriority(s), req) == Best(s, req)
  {
    if s != [] {
      FirstMatchOfSorted(s[1..], req);
      SortSorts(s[1..]);
      FirstMatchAfterInsert(s[0], SortByPriority(s[1..]), req);
    }
  }

  lemma {:induction false} BestIsBest(s: seq<Policy>, req: Request)
    ensures match Best(s, req)
            case None => forall q :: q in s ==> !Applies(q, req)
            case Some(p) =>
              && p in s && Applies(p, req)
              && forall q :: q in s && Applies(q, req) ==> q.priority <= p.priority
  {
    if s != [] {
      BestIsBest(s[1..], req);
      assert forall q :: q in s <==> q == s[0] || q in s[1..];
    }
  }

  // ---- Every order of walking the map ----

  type PolicyMap = map<string, Policy>

  /** The policies are stored under their identifiers. */
  ghost predicate WellKeyed(policies: PolicyMap) {
    forall id :: id in policies ==> policies[id].id == id
  }

  /** One walk through the map: each policy once, in any order. */
  ghost predicate IsWalk(policies: PolicyMap, ids: seq<string>) {
    NoDuplicates(ids) && Elements(ids) == policies.Keys
  }

  function InOrder(policies: PolicyMap, ids: seq<string>): seq<Policy>
    requires forall id :: id in ids ==> id in policies
  {
    seq(|ids|, i requires 0 <= i < |ids| => policies[ids[i]])
  }

  function Decide(defaultEffect: Effect, found: Option<Policy>): Decision {
    match found
    case None => Decision(defaultEffect == Allow, "")
    case Some(p) => Decision(p.effect == Allow, p.id)
  }

  /** The evaluator's decision when the store walks its map in this order. */
  ghost predicate MayDecide(policies: PolicyMap, defaultEffect: Effect, req: Request, decision: Decision) {
    exists ids :: IsWalk(policies, ids) && decision == Decide(defaultEffect, Best(InOrder(policies, ids), req))
  }

  /** A matching policy that no other matching policy outranks. */
  ghost predicate IsTop(policies: PolicyMap, req: Request, id: string) {
    && id in policies && Applies(policies[id], req)
    && forall other :: other in policies && Applies(policies[other], req) ==>
         policies[other].priority <= policies[id].priority
  }

  ghost predicate MatchesNothing(policies: PolicyMap, req: Request) {
    forall id :: id in policies ==> !Applies(policies[id], req)
  }

  /** The decision of a top policy, or the default decision if no policy matches. */
  ghost predicate IsPossible(policies: PolicyMap, defaultEffect: Effect, req: Request, decision: Decision) {
    if MatchesNothing(policies, req) then
      decision == Decision(defaultEffect == Allow, "")
    else
      && IsTop(policies, req, decision.matchedPolicy)
      && decision.allowed == (policies[decision.matchedPolicy].effect == Allow)
  }

  lemma WalkContains(policies: PolicyMap, ids: seq<string>)
    requires IsWalk(policies, ids)
    ensures forall id :: id in ids <==> id in policies
    ensures forall p :: p in InOrder(policies, ids) <==> exists id :: id in policies && p == policies[id]
  {
    forall id ensures id in ids <==> id in policies {
      assert id in ids <==> id in Elements(ids);
    }
    forall id | id in policies ensures policies[id] in InOrder(policies, ids) {
      var i :| 0 <= i < |ids| && ids[i] == id;
      assert InOrder(policies, ids)[i] == policies[id];
    }
  }

  lemma DecisionOfWalk(policies: PolicyMap, ids: seq<string>, defaultEffect: Effect, req: Request)
    requires WellKeyed(policies) && IsWalk(policies, ids)
    ensures var decision := Decide(defaultEffect, Best(InOrder(policies, ids), req));
            IsPossible(policies, defaultEffect, req, decision)
  {
    hide Best, InOrder, Applies;
    WalkContains(policies, ids);
    BestIsBest(InOrder(policies, ids), req);
    assert forall id :: id in policies ==> policies[id] in InOrder(policies, ids);
  }

  lemma {:induction false} SomeWalk(keys: set<string>) returns (ids: seq<string>)
    ensures NoDuplicates(ids) && Elements(ids) == keys
  {
    if keys == {} {
      ids := [];
    } else {
      var id :| id in keys;
      var rest := SomeWalk(keys - {id});
      assert id !in Elements(rest);
      ids := [id] + rest;
      assert Elements(ids) == {id} + Elements(rest);
    }
  }

  /** Some walk makes any given top policy the one that decides. */
  lemma TopPolicyMayDecide(policies: PolicyMap, defaultEffect: Effect, req: Request, id: string)
    requires WellKeyed(policies) && IsTop(policies, req, id)
    ensures MayDecide(policies, defaultEffect, req, Decision(policies[id].effect == Allow, id))
  {
    var rest := SomeWalk(policies.Keys - {id});
    assert id !in Elements(rest);
    var ids := [id] + rest;
    assert Elements(ids) == {id} + Elements(rest);
    assert IsWalk(policies, ids);
    WalkContains(policies, ids);
    var s := InOrder(policies, ids);
    BestIsBest(s[1..], req);
    assert s[0] == policies[id];
    if Best(s[1..], req).Some? {
      assert Best(s[1..], req).value in s;
    }
    assert Best(s, req) == Some(policies[id]);
  }

  /** The possible decisions are exactly those of the top policies, or the default if nothing matches. */
  lemma PossibleDecisions(policies: PolicyMap, defaultEffect: Effect, req: Request, decision: Decision)
    requires WellKeyed(policies)
    ensures MayDecide(policies, defaultEffect, req, decision) <==>
            IsPossible(policies, defaultEffect, req, decision)
  {
    hide IsTop, MatchesNothing, WellKeyed, Best;
    if MayDecide(policies, defaultEffect, req, decision) {
      var ids :| IsWalk(policies, ids) && decision == Decide(defaultEffect, Best(InOrder(policies, ids), req));
      DecisionOfWalk(policies, ids, defaultEffect, req);
    } else if MatchesNothing(policies, req) {
      var ids := SomeWalk(policies.Keys);
      AnyWalkDecides(policies, ids, defaultEffect, req);
    } else if IsTop(policies, req, decision.matchedPolicy) {
      TopPolicyMayDecide(policies, defaultEffect, req, decision.matchedPolicy);
    }
  }

  lemma AnyWalkDecides(policies: PolicyMap, ids: seq<string>, defaultEffect: Effect, req: Request)
    requires WellKeyed(policies) && NoDuplicates(ids) && Elements(ids) == policies.Keys
    ensures MatchesNothing(policies, req) ==>
              MayDecide(policies, defaultEffect, req, Decision(defaultEffect == Allow, ""))
  {
    hide Best, Applies;
    assert IsWalk(policies, ids);
    DecisionOfWalk(policies, ids, defaultEffect, req);
  }

  /** The policy has no condition, or one that holds of the request. */
  ghost predicate Covers(p: Policy, req: Request) {
    match p.condition
    case None => true
    case Some(condition) => condition(req)
  }

  /**
   The possible decisions told by the policies' own fields: some covering policy that no
   other one outranks decides by its effect, and the default does where none covers.
   */
  lemma DecisionsExactly(policies: PolicyMap, defaultEffect: Effect, req: Request, decision: Decision)
    requires WellKeyed(policies)
    ensures MayDecide(policies, defaultEffect, req, decision) <==>
            || (&& (forall id :: id in policies ==> !Covers(policies[id], req))
                && decision == Decision(defaultEffect != Deny, ""))
            || (exists id :: && id in policies && Covers(policies[id], req)
                             && (forall other :: other in policies && Covers(policies[other], req) ==>
                                   policies[other].priority <= policies[id].priority)
                             && decision == Decision(policies[id].effect != Deny, id))
  {
    hide MayDecide;
    assert forall p :: Covers(p, req) <==> Applies(p, req);
    PossibleDecisions(policies, defaultEffect, req, decision);
  }

  /** A policy without a condition decides every request if it outranks all others. */
  lemma UnconditionalDecides(policies: PolicyMap, defaultEffect: Effect, req: Request, id: string, decision: Decision)
    requires WellKeyed(policies) && id in policies && policies[id].condition == None
    requires forall other :: other in policies && other != id ==> policies[other].priority < policies[id].priority
    ensures MayDecide(policies, defaultEffect, req, decision) <==> decision == Decision(policies[id].effect != Deny, id)
  {
    hide MayDecide;
    DecisionsExactly(policies, defaultEffect, req, decision);
    assert Covers(policies[id], req);
  }

  // ---- What ties do ----

  ghost predicate TopPoliciesAgree(policies: PolicyMap, req: Request) {
    forall a, b :: IsTop(policies, req, a) && IsTop(policies, req, b) ==> policies[a].effect == policies[b].effect
  }

  ghost predicate AnswerIsFixed(policies: PolicyMap, defaultEffect: Effect, req: Request) {
    forall d, e :: MayDecide(policies, defaultEffect, req, d) && MayDecide(policies, defaultEffect, req, e) ==>
      d.allowed == e.allowed
  }

  /** A denying top policy settles the answer. */
  ghost predicate DenyTakesPrecedence(policies: PolicyMap, defaultEffect: Effect, req: Request) {
    (exists id :: IsTop(policies, req, id) && policies[id].effect == Deny) ==>
      forall d :: MayDecide(policies, defaultEffect, req, d) ==> !d.allowed
  }

  /** Allowed or denied is the same for every order of the map if and only if the top policies agree. */
  lemma AnswerIsFixedExactly(policies: PolicyMap, defaultEffect: Effect, req: Request)
    requires WellKeyed(policies)
    ensures AnswerIsFixed(policies, defaultEffect, req) <==> TopPoliciesAgree(policies, req)
  {
    hide MayDecide;
    forall d | MayDecide(policies, defaultEffect, req, d) ensures IsPossible(policies, defaultEffect, req, d) {
      PossibleDecisions(policies, defaultEffect, req, d);
    }
    forall id | IsTop(policies, req, id)
      ensures MayDecide(policies, defaultEffect, req, Decision(policies[id].effect == Allow, id))
    {
      TopPolicyMayDecide(policies, defaultEffect, req, id);
    }
  }

  /** The documented precedence of Deny over Allow at equal priority holds only where there is nothing to settle. */
  lemma DenyTakesPrecedenceExactly(policies: PolicyMap, defaultEffect: Effect, req: Request)
    requires WellKeyed(policies)
    ensures DenyTakesPrecedence(policies, defaultEffect, req) <==> TopPoliciesAgree(policies, req)
  {
    hide MayDecide;
    forall d | MayDecide(policies, defaultEffect, req, d) ensures IsPossible(policies, defaultEffect, req, d) {
      PossibleDecisions(policies, defaultEffect, req, d);
    }
    forall id | IsTop(policies, req, id)
      ensures MayDecide(policies, defaultEffect, req, Decision(policies[id].effect == Allow, id))
      ensures !MatchesNothing(policies, req)
    {
      TopPolicyMayDecide(policies, defaultEffect, req, id);
      TopPolicyMatches(policies, req, id);
    }
  }

  /** The documented order of ties by insertion: the whole decision, policy included, is settled. */
  ghost predicate DecisionIsFixed(policies: PolicyMap, defaultEffect: Effect, req: Request) {
    forall d, e :: MayDecide(policies, defaultEffect, req, d) && MayDecide(policies, defaultEffect, req, e) ==> d == e
  }

  /** The whole decision is the same for every order of the map if and only if at most one policy is top. */
  lemma DecisionIsFixedExactly(policies: PolicyMap, defaultEffect: Effect, req: Request)
    requires WellKeyed(policies)
    ensures DecisionIsFixed(policies, defaultEffect, req) <==>
            forall a, b :: IsTop(policies, req, a) && IsTop(policies, req, b) ==> a == b
  {
    hide MayDecide;
    forall d | MayDecide(policies, defaultEffect, req, d) ensures IsPossible(policies, defaultEffect, req, d) {
      PossibleDecisions(policies, defaultEffect, req, d);
    }
    forall id | IsTop(policies, req, id)
      ensures MayDecide(policies, defaultEffect, req, Decision(policies[id].effect == Allow, id))
    {
      TopPolicyMayDecide(policies, defaultEffect, req, id);
    }
  }

  lemma TopPolicyMatches(policies: PolicyMap, req: Request, id: string)
    requires IsTop(policies, req, id)
    ensures !MatchesNothing(policies, req)
  {
  }

  // ---- The store and the evaluator ----

  class MemoryStore {
    var policies: PolicyMap

    ghost predicate Valid()
      reads this
    {
      WellKeyed(policies)
    }

    constructor ()
      ensures Valid() && policies == map[]
    {
      policies := map[];
    }

    method AddPolicy(policy: Policy)
      requires Valid()
      modifies this
      ensures Valid() && policies == old(policies)[policy.id := policy]
    {
      policies := policies[policy.id := policy];
    }

    method RemovePolicy(id: string) returns (found: bool)
      requires Valid()
      modifies this
      ensures Valid() && policies == old(policies) - {id}
      ensures found <==> id in old(policies)
    {
      if id !in policies {
        assert policies - {id} == policies;
        return false;
      }
      policies := policies - {id};
      return true;
    }

    method Policies() returns (out: seq<Policy>)
      ensures exists ids :: IsWalk(policies, ids) && out == SortByPriority(InOrder(policies, ids))
    {
      out := [];
      ghost var ids := [];
      var left := policies.Keys;
      while left != {}
        invariant left <= policies.Keys
        invariant NoDuplicates(ids) && Elements(ids) == policies.Keys - left
        invariant forall id :: id in ids ==> id in policies
        invariant out == InOrder(policies, ids)
        decreases left
      {
        var id :| id in left;
        assert id !in Elements(ids);
        assert Elements(ids + [id]) == Elements(ids) + {id};
        left := left - {id};
        out := out + [policies[id]];
        ids := ids + [id];
      }
      assert IsWalk(policies, ids);
      out := SortByPriority(out);
    }
  }

  class Evaluator {
    const store: MemoryStore
    const defaultEffect: Effect

    constructor (store: MemoryStore, defaultAllow: bool)
      ensures this.store == store && defaultEffect == if defaultAllow then Allow else Deny
    {
      this.store := store;
      defaultEffect := if defaultAllow then Allow else Deny;
    }

    method Evaluate(req: Request) returns (decision: Decision)
      ensures MayDecide(store.policies, defaultEffect, req, decision)
    {
      var policies := store.Policies();
      ghost var ids :| IsWalk(store.policies, ids) && policies == SortByPriority(InOrder(store.policies, ids));
      FirstMatchOfSorted(InOrder(store.policies, ids), req);
      for i := 0 to |policies|
        invariant FirstMatch(policies, req) == FirstMatch(policies[i..], req)
      {
        var p := policies[i];
        if p.condition.None? || p.condition.value(req) {
          return Decision(p.effect == Allow, p.id);
        }
      }
      return Decision(defaultEffect == Allow, "");
    }
  }
}
