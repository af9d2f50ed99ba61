/**
 `gate.delegated_reach`: what a run may reach, in its corrected form and in the form migration
 0028 installed, against `EntitlementSet.intersect` and against the rule itself.
 */
module Delegation {
  import opened Wrappers
  import opened Reach

  // ------------------------------------------------------------ the capabilities a result names

  /** The capabilities grants name, each once, in the order they are first named. */
  function FirstNamed(grants: seq<Grant>): (names: seq<string>)
    ensures forall c :: c in names <==> exists g | g in grants :: g.capability == c
  {
    if grants == [] then []
    else
      var before := FirstNamed(grants[..|grants| - 1]);
      var last := grants[|grants| - 1].capability;
      assert grants == grants[..|grants| - 1] + [grants[|grants| - 1]];
      if last in before then before else before + [last]
  }

  /** One grant for each capability that is held, in the scope it is held in. */
  function GrantsWhere(names: seq<string>, held: Rule): (grants: seq<Grant>)
    ensures forall g :: g in grants <==> g.capability in names && held(g.capability) == Some(g.scope)
  {
    if names == [] then []
    else
      var before := GrantsWhere(names[..|names| - 1], held);
      var last := names[|names| - 1];
      assert names == names[..|names| - 1] + [last];
      match held(last)
      case None => before
      case Some(scope) => before + [Grant(last, scope)]
  }

  /** Two reaches hold a capability together when both do, in both scopes. */
  function Both(a: Option<Scope>, b: Option<Scope>): Option<Scope> {
    if a.Some? && b.Some? then Some(a.value + b.value) else None
  }

  // ------------------------------------------------------------ the Python: one intersection

  /** What a reach holds, as a rule from capabilities to scopes. */
  type Rule = string -> Option<Scope>

  function HeldByBoth(left: Reach, ceiling: Reach, now: int): Rule {
    c => Both(ScopeFor(Unbounded(left), c, now), ScopeFor(ceiling, c, now))
  }

  /** `EntitlementSet.intersect`. The left side's bound is carried and never judged. */
  function Intersect(left: Reach, ceiling: Reach, now: int): Reach {
    Reach(left.principal,
          GrantsWhere(FirstNamed(left.grants + ceiling.grants), HeldByBoth(left, ceiling, now)),
          Least(left.notAfter, ceiling.notAfter))
  }

  // ------------------------------------------------------------ the SQL: three sides in one pass

  function HeldByAll(parent: Reach, agent: Reach, subtask: Reach, at: int): Rule {
    c => Both(Both(ScopeFor(Unbounded(parent), c, at), ScopeFor(agent, c, at)), ScopeFor(subtask, c, at))
  }

  /** `gate.delegated_reach` as migration 0029 leaves it. */
  function DelegatedReach(parent: Reach, agent: Reach, subtask: Reach, at: int): Reach {
    Reach(parent.principal,
          GrantsWhere(FirstNamed(parent.grants + agent.grants + subtask.grants),
                      HeldByAll(parent, agent, subtask, at)),
          Least(Least(parent.notAfter, agent.notAfter), subtask.notAfter))
  }

  // ------------------------------------------------------------ the exact meet

  /** A rule for holding capabilities that follows covering: what the grants of a reach give. */
  ghost predicate Monotone(held: Rule) {
    forall p, q | Covers(p, q) && held(p).Some? ::
      held(q).Some? && held(p).value <= held(q).value
  }

  /** A capability that is held is held through some name, at which it is held just as much. */
  ghost predicate HeldThrough(names: seq<string>, held: Rule, capability: string) {
    held(capability).Some? ==> exists p | p in names :: Covers(p, capability) && held(p) == held(capability)
  }

  lemma ListedIsHeld(names: seq<string>, held: Rule, g: Grant, capability: string)
    requires Monotone(held)
    requires g in GrantsWhere(names, held) && Covers(g.capability, capability)
    ensures held(capability).Some? && g.scope <= held(capability).value
  {
    assert held(g.capability) == Some(g.scope);
  }

  lemma HeldIsListed(names: seq<string>, held: Rule, capability: string)
    requires HeldThrough(names, held, capability) && held(capability).Some?
    ensures exists g | g in GrantsWhere(names, held) ::
              Covers(g.capability, capability) && g.scope == held(capability).value
  {
    var p :| p in names && Covers(p, capability) && held(p) == held(capability);
    assert Grant(p, held(p).value) in GrantsWhere(names, held);
  }

  /** Listing a monotone rule at its names loses nothing: the list answers as the rule does. */
  lemma ListedExactly(names: seq<string>, held: Rule, capability: string)
    requires Monotone(held) && HeldThrough(names, held, capability)
    ensures Named(GrantsWhere(names, held), capability) <==> held(capability).Some?
    ensures held(capability).Some? ==>
              ClausesFor(GrantsWhere(names, held), capability) == held(capability).value
  {
    var grants := GrantsWhere(names, held);
    if Named(grants, capability) {
      var g :| g in grants && Covers(g.capability, capability);
      ListedIsHeld(names, held, g, capability);
    }
    if held(capability).Some? {
      HeldIsListed(names, held, capability);
      ListedClauses(names, held, capability);
    }
  }

  lemma ListedClauses(names: seq<string>, held: Rule, capability: string)
    requires Monotone(held) && HeldThrough(names, held, capability) && held(capability).Some?
    ensures ClausesFor(GrantsWhere(names, held), capability) == held(capability).value
  {
    var grants := GrantsWhere(names, held);
    forall c | c in ClausesFor(grants, capability)
      ensures c in held(capability).value
    {
      var g :| g in grants && Covers(g.capability, capability) && c in g.scope;
      ListedIsHeld(names, held, g, capability);
    }
    HeldIsListed(names, held, capability);
    var g :| g in grants && Covers(g.capability, capability) && g.scope == held(capability).value;
    assert g.scope <= ClausesFor(grants, capability);
  }

  lemma ScopeForMonotone(r: Reach, now: int, p: string, q: string)
    requires Covers(p, q) && ScopeFor(r, p, now).Some?
    ensures ScopeFor(r, q, now).Some? && ScopeFor(r, p, now).value <= ScopeFor(r, q, now).value
  {
    ClausesForGrows(r.grants, p, q);
  }

  /** Where every pattern of a reach covering q covers p too, the reach holds p as it holds q. */
  lemma ScopeForAtNarrowest(r: Reach, now: int, p: string, q: string)
    requires Covers(p, q)
    requires forall g | g in r.grants && Covers(g.capability, q) :: Covers(g.capability, p)
    ensures ScopeFor(r, p, now) == ScopeFor(r, q, now)
  {
    ClausesForGrows(r.grants, p, q);
    assert ClausesFor(r.grants, q) == ClausesFor(r.grants, p);
  }

  lemma HeldByAllGrows(parent: Reach, agent: Reach, subtask: Reach, at: int, p: string, q: string)
    requires Covers(p, q) && HeldByAll(parent, agent, subtask, at)(p).Some?
    ensures HeldByAll(parent, agent, subtask, at)(q).Some?
    ensures HeldByAll(parent, agent, subtask, at)(p).value <= HeldByAll(parent, agent, subtask, at)(q).value
  {
    ScopeForMonotone(Unbounded(parent), at, p, q);
    ScopeForMonotone(agent, at, p, q);
    ScopeForMonotone(subtask, at, p, q);
  }

  lemma HeldByAllIsMonotone(parent: Reach, agent: Reach, subtask: Reach, at: int)
    ensures Monotone(HeldByAll(parent, agent, subtask, at))
  {
    var held := HeldByAll(parent, agent, subtask, at);
    forall p, q | Covers(p, q) && held(p).Some?
      ensures held(q).Some? && held(p).value <= held(q).value
    {
      HeldByAllGrows(parent, agent, subtask, at, p, q);
    }
  }

  lemma HeldByAllThroughNames(parent: Reach, agent: Reach, subtask: Reach, at: int, q: string)
    ensures HeldThrough(FirstNamed(parent.grants + agent.grants + subtask.grants),
                        HeldByAll(parent, agent, subtask, at), q)
  {
    var held := HeldByAll(parent, agent, subtask, at);
    if held(q).Some? {
      var all := parent.grants + agent.grants + subtask.grants;
      NamedGrows(parent.grants, all, q);
      var g := Narrowest(all, q);
      ScopeForAtNarrowest(Unbounded(parent), at, g.capability, q);
      ScopeForAtNarrowest(agent, at, g.capability, q);
      ScopeForAtNarrowest(subtask, at, g.capability, q);
      assert g.capability in FirstNamed(all) && held(g.capability) == held(q);
    }
  }

  lemma NamedGrows(some: seq<Grant>, all: seq<Grant>, capability: string)
    requires Named(some, capability) && forall g | g in some :: g in all
    ensures Named(all, capability)
  {
    var g :| g in some && Covers(g.capability, capability);
    assert g in all;
  }

  /** The scope the corrected body computes at any capability is all three scopes conjoined. */
  lemma DelegatedScope(parent: Reach, agent: Reach, subtask: Reach, at: int, capability: string, now: int)
    ensures ScopeFor(Unbounded(DelegatedReach(parent, agent, subtask, at)), capability, now)
         == HeldByAll(parent, agent, subtask, at)(capability)
  {
    HeldByAllIsMonotone(parent, agent, subtask, at);
    HeldByAllThroughNames(parent, agent, subtask, at, capability);
    ListedExactly(FirstNamed(parent.grants + agent.grants + subtask.grants),
                  HeldByAll(parent, agent, subtask, at), capability);
  }

  /** Admission is holding, unexpired, with every clause of the scope matched. */
  lemma AdmitsWhereHeld(r: Reach, capability: string, row: Record, now: int)
    ensures Admits(r, capability, row, now)
       <==> !Expired(r, now) && Named(r.grants, capability) && Matches(ClausesFor(r.grants, capability), row)
  {
  }

  /** One of these bounds, none of which that is set comes before it. */
  predicate IsTheFirst(bound: Option<int>, among: seq<Option<int>>) {
    && bound in among
    && forall b | b in among && b.Some? :: bound.Some? && bound.value <= b.value
  }

  lemma FirstOfThree(a: Option<int>, b: Option<int>, c: Option<int>)
    ensures IsTheFirst(Least(Least(a, b), c), [a, b, c])
  {
    assert [a, b, c][0] == a && [a, b, c][1] == b && [a, b, c][2] == c;
  }

  /**
   The corrected reach is an exact meet, and its expiry is the first of the three. At every capability, on every record and at every
   instant the child admits what all three sides admit there, and nothing else, provided the
   ceilings had not already run out when the delegation was decided.
   */
  lemma DelegatedReachIsTheMeet(parent: Reach, agent: Reach, subtask: Reach, at: int,
                                capability: string, row: Record, now: int)
    ensures Admits(DelegatedReach(parent, agent, subtask, at), capability, row, now)
       <==> && Admits(parent, capability, row, now)
            && Admits(agent, capability, row, now)
            && Admits(subtask, capability, row, now)
            && !Expired(agent, at) && !Expired(subtask, at)
    ensures IsTheFirst(DelegatedReach(parent, agent, subtask, at).notAfter,
                       [parent.notAfter, agent.notAfter, subtask.notAfter])
  {
    var child := DelegatedReach(parent, agent, subtask, at);
    FirstOfThree(parent.notAfter, agent.notAfter, subtask.notAfter);
    DelegatedScope(parent, agent, subtask, at, capability, now);
    LeastExpires(parent.notAfter, agent.notAfter, now);
    LeastExpires(Least(parent.notAfter, agent.notAfter), subtask.notAfter, now);
    assert Expired(child, now) <==> Expired(parent, now) || Expired(agent, now) || Expired(subtask, now);
    AdmitsWhereHeld(child, capability, row, now);
    AdmitsWhereHeld(parent, capability, row, now);
    AdmitsWhereHeld(agent, capability, row, now);
    AdmitsWhereHeld(subtask, capability, row, now);
  }

  /** A delegation judged from its own decision on is exactly the meet, with no proviso. */
  lemma DelegatedReachIsTheMeetFromItsDecision(parent: Reach, agent: Reach, subtask: Reach, at: int,
                                               capability: string, row: Record, now: int)
    requires at <= now
    ensures Admits(DelegatedReach(parent, agent, subtask, at), capability, row, now)
       <==> && Admits(parent, capability, row, now)
            && Admits(agent, capability, row, now)
            && Admits(subtask, capability, row, now)
  {
    DelegatedReachIsTheMeet(parent, agent, subtask, at, capability, row, now);
  }

  // ------------------------------------------------------------ the pass is the fold

  lemma BothIsAllTwice(left: Reach, ceiling: Reach, now: int, capability: string)
    ensures HeldByBoth(left, ceiling, now)(capability) == HeldByAll(left, ceiling, ceiling, now)(capability)
  {
  }

  /** The scope one intersection computes at any capability is both scopes conjoined. */
  lemma IntersectScope(left: Reach, ceiling: Reach, now: int, capability: string, at: int)
    ensures ScopeFor(Unbounded(Intersect(left, ceiling, now)), capability, at)
         == HeldByBoth(left, ceiling, now)(capability)
  {
    var names := FirstNamed(left.grants + ceiling.grants);
    var held := HeldByBoth(left, ceiling, now);
    forall p, q | Covers(p, q) && held(p).Some?
      ensures held(q).Some? && held(p).value <= held(q).value
    {
      BothIsAllTwice(left, ceiling, now, p);
      BothIsAllTwice(left, ceiling, now, q);
      HeldByAllGrows(left, ceiling, ceiling, now, p, q);
    }
    HeldByBothThroughNames(left, ceiling, now, capability);
    ListedExactly(names, held, capability);
  }

  lemma HeldByBothThroughNames(left: Reach, ceiling: Reach, now: int, q: string)
    ensures HeldThrough(FirstNamed(left.grants + ceiling.grants), HeldByBoth(left, ceiling, now), q)
  {
    var held := HeldByBoth(left, ceiling, now);
    if held(q).Some? {
      var both := left.grants + ceiling.grants;
      NamedGrows(left.grants, both, q);
      var g := Narrowest(both, q);
      ScopeForAtNarrowest(Unbounded(left), now, g.capability, q);
      ScopeForAtNarrowest(ceiling, now, g.capability, q);
      assert g.capability in FirstNamed(both) && held(g.capability) == held(q);
    }
  }

  /** One intersection admits exactly what both sides admit, by the Python as by the SQL. */
  lemma IntersectIsTheMeet(left: Reach, ceiling: Reach, at: int, capability: string, row: Record, now: int)
    ensures Admits(Intersect(left, ceiling, at), capability, row, now)
       <==> Admits(left, capability, row, now) && Admits(ceiling, capability, row, now) && !Expired(ceiling, at)
  {
    var run := Intersect(left, ceiling, at);
    IntersectScope(left, ceiling, at, capability, now);
    LeastExpires(left.notAfter, ceiling.notAfter, now);
    AdmitsWhereHeld(run, capability, row, now);
    AdmitsWhereHeld(left, capability, row, now);
    AdmitsWhereHeld(ceiling, capability, row, now);
  }

  lemma FirstNamedSnoc(grants: seq<Grant>, g: Grant)
    ensures FirstNamed(grants + [g]) ==
            if g.capability in FirstNamed(grants) then FirstNamed(grants)
            else FirstNamed(grants) + [g.capability]
  {
    assert (grants + [g])[..|grants|] == grants;
  }

  lemma GrantsWhereSnoc(names: seq<string>, name: string, held: Rule)
    ensures GrantsWhere(names + [name], held) ==
            GrantsWhere(names, held) + (if held(name).Some? then [Grant(name, held(name).value)] else [])
  {
    assert (names + [name])[..|names|] == names;
  }

  ghost predicate Distinct(names: seq<string>) {
    forall i, j | 0 <= i < j < |names| :: names[i] != names[j]
  }

  lemma FirstNamedDistinct(grants: seq<Grant>)
    ensures Distinct(FirstNamed(grants))
  {
    if grants != [] {
      FirstNamedDistinct(grants[..|grants| - 1]);
    }
  }

  /** Naming what a wider rule already listed, in the order it listed them, changes nothing. */
  lemma {:induction false} RelistedNames(names: seq<string>, wider: Rule, held: Rule)
    requires Distinct(names)
    requires forall c | held(c).Some? :: wider(c).Some?
    ensures GrantsWhere(FirstNamed(GrantsWhere(names, wider)), held) == GrantsWhere(names, held)
  {
    if names != [] {
      var before, last := names[..|names| - 1], names[|names| - 1];
      assert names == before + [last];
      RelistedNames(before, wider, held);
      GrantsWhereSnoc(before, last, wider);
      GrantsWhereSnoc(before, last, held);
      if wider(last).Some? {
        FirstNamedSnoc(GrantsWhere(before, wider), Grant(last, wider(last).value));
        assert last !in before;
        GrantsWhereSnoc(FirstNamed(GrantsWhere(before, wider)), last, held);
      } else {
        assert held(last).None?;
      }
    }
  }

  /** The names a second ceiling adds come out in one order, whichever way the first pass was kept. */
  lemma {:induction false} RelistedWithMore(first: seq<Grant>, wider: Rule, held: Rule, more: seq<Grant>)
    requires forall c | held(c).Some? :: wider(c).Some?
    ensures var kept := GrantsWhere(FirstNamed(first), wider);
            GrantsWhere(FirstNamed(kept + more), held) == GrantsWhere(FirstNamed(first + more), held)
  {
    var kept := GrantsWhere(FirstNamed(first), wider);
    if more == [] {
      assert kept + more == kept && first + more == first;
      FirstNamedDistinct(first);
      RelistedNames(FirstNamed(first), wider, held);
    } else {
      var before, last := more[..|more| - 1], more[|more| - 1];
      assert kept + more == (kept + before) + [last] && first + more == (first + before) + [last];
      RelistedWithMore(first, wider, held, before);
      FirstNamedSnoc(kept + before, last);
      FirstNamedSnoc(first + before, last);
      GrantsWhereSnoc(FirstNamed(kept + before), last.capability, held);
      GrantsWhereSnoc(FirstNamed(first + before), last.capability, held);
      if held(last.capability).Some? {
        SameNames(first, wider, before, last.capability);
      }
    }
  }

  lemma SameNames(first: seq<Grant>, wider: Rule, more: seq<Grant>, name: string)
    requires wider(name).Some?
    ensures var kept := GrantsWhere(FirstNamed(first), wider);
            name in FirstNamed(kept + more) <==> name in FirstNamed(first + more)
  {
    var kept := GrantsWhere(FirstNamed(first), wider);
    if name in FirstNamed(first) {
      var g := Grant(name, wider(name).value);
      assert g in kept && g in kept + more;
      var f :| f in first && f.capability == name;
      assert f in first + more;
    } else {
      assert forall g | g in first :: g.capability != name;
      assert forall g | g in kept :: g.capability != name;
      if h :| h in more && h.capability == name {
        assert h in kept + more && h in first + more;
      }
    }
  }

  lemma SameRuleSameGrants(names: seq<string>, one: Rule, other: Rule)
    requires forall c :: one(c) == other(c)
    ensures GrantsWhere(names, one) == GrantsWhere(names, other)
  {
  }

  /**
   The flattened SQL pass is the Python fold: the same grants, with the same scopes, in the same
   order, with the same bound, for every parent and every pair of ceilings.
   */
  lemma DelegatedReachIsTheFold(parent: Reach, agent: Reach, subtask: Reach, at: int)
    ensures DelegatedReach(parent, agent, subtask, at) == Intersect(Intersect(parent, agent, at), subtask, at)
  {
    var run := Intersect(parent, agent, at);
    var folded, flat := HeldByBoth(run, subtask, at), HeldByAll(parent, agent, subtask, at);
    forall c ensures folded(c) == flat(c) {
      IntersectScope(parent, agent, at, c, at);
    }
    RelistedWithMore(parent.grants + agent.grants, HeldByBoth(parent, agent, at), flat, subtask.grants);
    SameRuleSameGrants(FirstNamed(run.grants + subtask.grants), folded, flat);
  }
}
