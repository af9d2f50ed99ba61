/**
 `gate.delegated_reach` as migration 0028 installed it and as a downgrade from 0029 writes it
 back: exactly where it agrees with the rule, and what it drops and widens elsewhere.
 */
module DelegationBefore {
  import opened Wrappers
  import opened Reach
  import opened Delegation

  /** The WHERE of the old body: both ceilings hold the grant's own capability. */
  predicate Survives(g: Grant, agent: Reach, subtask: Reach, at: int) {
    ScopeFor(agent, g.capability, at).Some? && ScopeFor(subtask, g.capability, at).Some?
  }

  function Narrowed(g: Grant, agent: Reach, subtask: Reach, at: int): Grant {
    Grant(g.capability,
          g.scope + ClausesFor(agent.grants, g.capability) + ClausesFor(subtask.grants, g.capability))
  }

  /** One row for each parent grant that survives, in the parent's order. */
  function SurvivingGrants(grants: seq<Grant>, agent: Reach, subtask: Reach, at: int): (kept: seq<Grant>)
    ensures forall h :: h in kept <==>
              exists g | g in grants :: Survives(g, agent, subtask, at) && h == Narrowed(g, agent, subtask, at)
  {
    if grants == [] then []
    else
      var rest := SurvivingGrants(grants[1..], agent, subtask, at);
      assert grants == [grants[0]] + grants[1..];
      if Survives(grants[0], agent, subtask, at) then [Narrowed(grants[0], agent, subtask, at)] + rest else rest
  }

  function ReachBefore(parent: Reach, agent: Reach, subtask: Reach, at: int): Reach {
    Reach(parent.principal, SurvivingGrants(parent.grants, agent, subtask, at),
          Least(Least(parent.notAfter, agent.notAfter), subtask.notAfter))
  }

  /** Some parent grant covering the capability survives. */
  predicate SomeSurvivor(parent: Reach, agent: Reach, subtask: Reach, at: int, capability: string) {
    exists g | g in parent.grants :: Covers(g.capability, capability) && Survives(g, agent, subtask, at)
  }

  /** Some survivor covering the capability brings the clause, of its own or from a ceiling. */
  predicate Supplied(parent: Reach, agent: Reach, subtask: Reach, at: int, capability: string, c: Clause) {
    exists g | g in parent.grants ::
      && Covers(g.capability, capability) && Survives(g, agent, subtask, at)
      && c in Narrowed(g, agent, subtask, at).scope
  }

  lemma BeforeReaches(parent: Reach, agent: Reach, subtask: Reach, at: int, capability: string)
    ensures Named(ReachBefore(parent, agent, subtask, at).grants, capability)
       <==> SomeSurvivor(parent, agent, subtask, at, capability)
  {
    var kept := ReachBefore(parent, agent, subtask, at).grants;
    if g :| g in parent.grants && Covers(g.capability, capability) && Survives(g, agent, subtask, at) {
      assert Narrowed(g, agent, subtask, at) in kept;
    }
  }

  lemma BeforeCarries(parent: Reach, agent: Reach, subtask: Reach, at: int, capability: string, c: Clause)
    ensures c in ClausesFor(ReachBefore(parent, agent, subtask, at).grants, capability)
       <==> Supplied(parent, agent, subtask, at, capability, c)
  {
    var kept := ReachBefore(parent, agent, subtask, at).grants;
    if g :| && g in parent.grants && Covers(g.capability, capability) && Survives(g, agent, subtask, at)
            && c in Narrowed(g, agent, subtask, at).scope {
      assert Narrowed(g, agent, subtask, at) in kept;
    }
  }

  lemma SurvivorIsHeld(parent: Reach, agent: Reach, subtask: Reach, at: int, g: Grant, capability: string)
    requires g in parent.grants && Covers(g.capability, capability) && Survives(g, agent, subtask, at)
    ensures HeldByAll(parent, agent, subtask, at)(capability).Some?
    ensures Narrowed(g, agent, subtask, at).scope <= HeldByAll(parent, agent, subtask, at)(capability).value
  {
    ScopeForMonotone(agent, at, g.capability, capability);
    ScopeForMonotone(subtask, at, g.capability, capability);
    assert g.scope <= ClausesFor(parent.grants, capability);
  }

  /** Wherever the old body reaches at all, the rule reaches too, and under no fewer clauses. */
  lemma BeforeIsNeverNarrowerWhereItReaches(parent: Reach, agent: Reach, subtask: Reach, at: int,
                                            capability: string)
    requires SomeSurvivor(parent, agent, subtask, at, capability)
    ensures HeldByAll(parent, agent, subtask, at)(capability).Some?
    ensures ClausesFor(ReachBefore(parent, agent, subtask, at).grants, capability)
         <= HeldByAll(parent, agent, subtask, at)(capability).value
  {
    var g :| g in parent.grants && Covers(g.capability, capability) && Survives(g, agent, subtask, at);
    SurvivorIsHeld(parent, agent, subtask, at, g, capability);
    forall c | c in ClausesFor(ReachBefore(parent, agent, subtask, at).grants, capability)
      ensures c in HeldByAll(parent, agent, subtask, at)(capability).value
    {
      BeforeCarries(parent, agent, subtask, at, capability, c);
      var h :| && h in parent.grants && Covers(h.capability, capability) && Survives(h, agent, subtask, at)
               && c in Narrowed(h, agent, subtask, at).scope;
      SurvivorIsHeld(parent, agent, subtask, at, h, capability);
    }
  }

  /** The first failure: the rule reaches, and no parent grant covering the capability survives. */
  predicate DropsReach(parent: Reach, agent: Reach, subtask: Reach, at: int, capability: string) {
    && HeldByAll(parent, agent, subtask, at)(capability).Some?
    && !SomeSurvivor(parent, agent, subtask, at, capability)
  }

  /** A parent grant was dropped beside one that survived, with a clause nothing else supplies. */
  predicate LosesParentClause(parent: Reach, agent: Reach, subtask: Reach, at: int,
                              capability: string, c: Clause) {
    && SomeSurvivor(parent, agent, subtask, at, capability)
    && (exists g | g in parent.grants ::
          && Covers(g.capability, capability) && !Survives(g, agent, subtask, at) && c in g.scope)
    && !Supplied(parent, agent, subtask, at, capability, c)
  }

  /** A ceiling narrows below every surviving grant, so its clause is never asked for. */
  predicate LosesCeilingClause(parent: Reach, agent: Reach, subtask: Reach, at: int,
                               capability: string, c: Clause) {
    && SomeSurvivor(parent, agent, subtask, at, capability)
    && (c in ClausesFor(agent.grants, capability) || c in ClausesFor(subtask.grants, capability))
    && !Supplied(parent, agent, subtask, at, capability, c)
  }

  /** The second failure: the old body reaches without a clause the parent's reach carried. */
  lemma BeforeLosesAParentClause(parent: Reach, agent: Reach, subtask: Reach, at: int,
                                 capability: string, c: Clause)
    ensures LosesParentClause(parent, agent, subtask, at, capability, c)
       <==> && Named(ReachBefore(parent, agent, subtask, at).grants, capability)
            && c in ClausesFor(parent.grants, capability)
            && c !in ClausesFor(ReachBefore(parent, agent, subtask, at).grants, capability)
  {
    BeforeReaches(parent, agent, subtask, at, capability);
    BeforeCarries(parent, agent, subtask, at, capability, c);
    if c in ClausesFor(parent.grants, capability) && !Supplied(parent, agent, subtask, at, capability, c) {
      var g :| g in parent.grants && Covers(g.capability, capability) && c in g.scope;
      assert c in Narrowed(g, agent, subtask, at).scope;
      assert !Survives(g, agent, subtask, at);
    }
  }

  /** Whether the old body agrees with the rule at a capability. */
  predicate BeforeIsExact(parent: Reach, agent: Reach, subtask: Reach, at: int, capability: string, now: int) {
    ScopeFor(Unbounded(ReachBefore(parent, agent, subtask, at)), capability, now)
      == HeldByAll(parent, agent, subtask, at)(capability)
  }

  /** Neither loses a clause. */
  ghost predicate LosesNothing(parent: Reach, agent: Reach, subtask: Reach, at: int, capability: string) {
    && (forall c :: !LosesParentClause(parent, agent, subtask, at, capability, c))
    && (forall c :: !LosesCeilingClause(parent, agent, subtask, at, capability, c))
  }

  /** A clause the rule asks for and the old body does not was lost in one of the two ways. */
  lemma WhatIsMissing(parent: Reach, agent: Reach, subtask: Reach, at: int, capability: string, c: Clause)
    requires SomeSurvivor(parent, agent, subtask, at, capability)
    requires HeldByAll(parent, agent, subtask, at)(capability).Some?
    ensures (&& c in HeldByAll(parent, agent, subtask, at)(capability).value
             && c !in ClausesFor(ReachBefore(parent, agent, subtask, at).grants, capability))
       <==> || LosesParentClause(parent, agent, subtask, at, capability, c)
            || LosesCeilingClause(parent, agent, subtask, at, capability, c)
  {
    BeforeReaches(parent, agent, subtask, at, capability);
    BeforeCarries(parent, agent, subtask, at, capability, c);
    BeforeLosesAParentClause(parent, agent, subtask, at, capability, c);
  }

  lemma SameScopeLosesNothing(parent: Reach, agent: Reach, subtask: Reach, at: int, capability: string)
    requires SomeSurvivor(parent, agent, subtask, at, capability)
    requires HeldByAll(parent, agent, subtask, at)(capability).Some?
    ensures HeldByAll(parent, agent, subtask, at)(capability).value
              <= ClausesFor(ReachBefore(parent, agent, subtask, at).grants, capability)
       <==> LosesNothing(parent, agent, subtask, at, capability)
  {
    forall c
      ensures (&& c in HeldByAll(parent, agent, subtask, at)(capability).value
               && c !in ClausesFor(ReachBefore(parent, agent, subtask, at).grants, capability))
         <==> || LosesParentClause(parent, agent, subtask, at, capability, c)
              || LosesCeilingClause(parent, agent, subtask, at, capability, c)
    {
      WhatIsMissing(parent, agent, subtask, at, capability, c);
    }
  }

  lemma ExactWhereSomethingSurvives(parent: Reach, agent: Reach, subtask: Reach, at: int, capability: string, now: int)
    requires SomeSurvivor(parent, agent, subtask, at, capability)
    ensures BeforeIsExact(parent, agent, subtask, at, capability, now)
       <==> LosesNothing(parent, agent, subtask, at, capability)
  {
    BeforeReaches(parent, agent, subtask, at, capability);
    BeforeIsNeverNarrowerWhereItReaches(parent, agent, subtask, at, capability);
    SameScopeLosesNothing(parent, agent, subtask, at, capability);
    HoldsExactly(ReachBefore(parent, agent, subtask, at), HeldByAll(parent, agent, subtask, at)(capability),
                 capability, now);
  }

  lemma HoldsExactly(r: Reach, held: Option<Scope>, capability: string, now: int)
    requires Named(r.grants, capability) && held.Some? && ClausesFor(r.grants, capability) <= held.value
    ensures ScopeFor(Unbounded(r), capability, now) == held <==> held.value <= ClausesFor(r.grants, capability)
  {
    var here := ClausesFor(r.grants, capability);
    assert ScopeFor(Unbounded(r), capability, now) == Some(here);
    if held.value <= here {
      assert held.value == here;
    }
  }

  /** The old body agrees with the rule at a capability exactly when none of the three happens. */
  lemma BeforeIsExactIff(parent: Reach, agent: Reach, subtask: Reach, at: int, capability: string, now: int)
    ensures BeforeIsExact(parent, agent, subtask, at, capability, now)
       <==> && !DropsReach(parent, agent, subtask, at, capability)
            && (forall c :: !LosesParentClause(parent, agent, subtask, at, capability, c))
            && (forall c :: !LosesCeilingClause(parent, agent, subtask, at, capability, c))
  {
    if SomeSurvivor(parent, agent, subtask, at, capability) {
      ExactWhereSomethingSurvives(parent, agent, subtask, at, capability, now);
    } else {
      BeforeReaches(parent, agent, subtask, at, capability);
    }
  }

  /** With no wildcard in the parent's hands the old body was already an exact meet. */
  lemma BeforeIsExactWithoutWildcards(parent: Reach, agent: Reach, subtask: Reach, at: int,
                                      capability: string, now: int)
    requires forall g | g in parent.grants :: !IsWildcard(g.capability)
    ensures BeforeIsExact(parent, agent, subtask, at, capability, now)
  {
    forall c
      ensures !LosesParentClause(parent, agent, subtask, at, capability, c)
      ensures !LosesCeilingClause(parent, agent, subtask, at, capability, c)
    {
      if SomeSurvivor(parent, agent, subtask, at, capability) {
        var g :| g in parent.grants && Covers(g.capability, capability) && Survives(g, agent, subtask, at);
        assert g.capability == capability;
        if c in ClausesFor(agent.grants, capability) || c in ClausesFor(subtask.grants, capability) {
          assert c in Narrowed(g, agent, subtask, at).scope;
        }
      }
    }
    BeforeIsExactIff(parent, agent, subtask, at, capability, now);
  }

  // ------------------------------------------------------------ the documented failures

  const COLUMN := "read:client.name"
  const WILDCARD := "read:client.*"

  lemma WildcardCoversColumn()
    ensures Covers(WILDCARD, COLUMN) && !Covers(COLUMN, WILDCARD)
  {
    assert WILDCARD[..|WILDCARD| - 1] == "read:client." == COLUMN[..|WILDCARD| - 1];
  }

  lemma HoldsAlone(principal: string, g: Grant, capability: string, at: int)
    ensures ScopeFor(Reach(principal, [g], None), capability, at)
         == if Covers(g.capability, capability) then Some(g.scope) else None
  {
    var r := Reach(principal, [g], None);
    assert r.grants[0] == g;
    if Covers(g.capability, capability) {
      assert ClausesFor(r.grants, capability) == g.scope;
    }
  }

  /** A parent's wildcard through a ceiling naming one column computed nothing at all. */
  lemma AWildcardWasDropped(at: int)
    ensures var parent := Reach("asker", [Grant(WILDCARD, {})], None);
            var ceiling := Reach("agent", [Grant(COLUMN, {})], None);
            && ReachBefore(parent, ceiling, ceiling, at).grants == []
            && DropsReach(parent, ceiling, ceiling, at, COLUMN)
            && Named(DelegatedReach(parent, ceiling, ceiling, at).grants, COLUMN)
  {
    var parent := Reach("asker", [Grant(WILDCARD, {})], None);
    var ceiling := Reach("agent", [Grant(COLUMN, {})], None);
    WildcardCoversColumn();
    HoldsAlone("asker", Grant(WILDCARD, {}), COLUMN, at);
    HoldsAlone("agent", Grant(COLUMN, {}), COLUMN, at);
    HoldsAlone("agent", Grant(COLUMN, {}), WILDCARD, at);
    assert parent.grants[1..] == [];
    assert !Survives(parent.grants[0], ceiling, ceiling, at);
    DelegatedScope(parent, ceiling, ceiling, at, COLUMN, at);
    assert SurvivingGrants(parent.grants[1..], ceiling, ceiling, at) == [];
  }

  const WEB := Clause("department", Eq, Text("web"))
  const GOLD := Clause("tier", Eq, Text("gold"))
  const HOLDER := Reach("asker", [Grant(WILDCARD, {WEB}), Grant(COLUMN, {GOLD})], None)
  const CEILING := Reach("agent", [Grant(COLUMN, {})], None)

  lemma OnlyTheColumnSurvived(at: int)
    ensures ReachBefore(HOLDER, CEILING, CEILING, at) == Reach("asker", [Grant(COLUMN, {GOLD})], None)
  {
    var wide, narrow := Grant(WILDCARD, {WEB}), Grant(COLUMN, {GOLD});
    WildcardCoversColumn();
    HoldsAlone("agent", Grant(COLUMN, {}), COLUMN, at);
    HoldsAlone("agent", Grant(COLUMN, {}), WILDCARD, at);
    assert !Survives(wide, CEILING, CEILING, at) && Survives(narrow, CEILING, CEILING, at);
    assert HOLDER.grants[1..] == [narrow] && [narrow][1..] == [];
    assert SurvivingGrants([narrow], CEILING, CEILING, at) == [narrow];
  }

  /**
   A wildcard held in Web beside a column held in gold computed gold clients of every
   department: the clause that kept the column to Web is gone, and rows outside Web are admitted.
   */
  lemma ADepartmentWasLost(at: int, row: Record)
    requires "tier" in row && row["tier"] == "gold"
    requires "department" !in row || row["department"] != "web"
    ensures LosesParentClause(HOLDER, CEILING, CEILING, at, COLUMN, WEB)
    ensures Admits(ReachBefore(HOLDER, CEILING, CEILING, at), COLUMN, row, at)
    ensures !Admits(DelegatedReach(HOLDER, CEILING, CEILING, at), COLUMN, row, at)
  {
    OnlyTheColumnSurvived(at);
    GoldIsAdmitted(at, row);
    TheDepartmentClauseIsLost(at);
    HolderKeepsToWeb(at, row);
    DelegatedReachIsTheMeet(HOLDER, CEILING, CEILING, at, COLUMN, row, at);
  }

  lemma GoldIsAdmitted(at: int, row: Record)
    requires "tier" in row && row["tier"] == "gold"
    ensures Admits(Reach("asker", [Grant(COLUMN, {GOLD})], None), COLUMN, row, at)
  {
    HoldsAlone("asker", Grant(COLUMN, {GOLD}), COLUMN, at);
    assert ClauseMatches(GOLD, row);
  }

  lemma TheDepartmentClauseIsLost(at: int)
    ensures LosesParentClause(HOLDER, CEILING, CEILING, at, COLUMN, WEB)
  {
    OnlyTheColumnSurvived(at);
    WildcardCoversColumn();
    HoldsAlone("asker", Grant(COLUMN, {GOLD}), COLUMN, at);
    assert HOLDER.grants[0] == Grant(WILDCARD, {WEB}) && WEB in ClausesFor(HOLDER.grants, COLUMN);
    BeforeLosesAParentClause(HOLDER, CEILING, CEILING, at, COLUMN, WEB);
  }

  lemma HolderKeepsToWeb(at: int, row: Record)
    requires "department" !in row || row["department"] != "web"
    ensures !Admits(HOLDER, COLUMN, row, at)
  {
    WildcardCoversColumn();
    assert HOLDER.grants[0] == Grant(WILDCARD, {WEB}) && WEB in ClausesFor(HOLDER.grants, COLUMN);
    assert !ClauseMatches(WEB, row);
  }

  const ASKER := Reach("asker", [Grant(WILDCARD, {})], None)
  const NARROWER := Reach("agent", [Grant(WILDCARD, {}), Grant(COLUMN, {GOLD})], None)

  lemma TheWildcardSurvived(at: int)
    ensures ReachBefore(ASKER, NARROWER, NARROWER, at) == Reach("asker", [Grant(WILDCARD, {})], None)
  {
    WildcardCoversColumn();
    assert NARROWER.grants[0] == Grant(WILDCARD, {}) && ASKER.grants[0] == Grant(WILDCARD, {});
    assert ClausesFor(NARROWER.grants, WILDCARD) == {};
    assert Survives(ASKER.grants[0], NARROWER, NARROWER, at);
    assert ASKER.grants[1..] == [] && SurvivingGrants([], NARROWER, NARROWER, at) == [];
  }

  lemma TheCeilingKeepsToGold(at: int, row: Record)
    requires "tier" !in row || row["tier"] != "gold"
    ensures GOLD in ClausesFor(NARROWER.grants, COLUMN) && !Admits(NARROWER, COLUMN, row, at)
  {
    WildcardCoversColumn();
    assert NARROWER.grants[1] == Grant(COLUMN, {GOLD}) && GOLD in ClausesFor(NARROWER.grants, COLUMN);
    assert !ClauseMatches(GOLD, row);
  }

  /**
   A ceiling's own narrowing of one column was lost the same way, from the other side: a ceiling that
   holds everything, and the column for gold clients only, let through clients of every tier.
   */
  lemma ACeilingClauseWasLost(at: int, row: Record)
    requires "tier" !in row || row["tier"] != "gold"
    ensures LosesCeilingClause(ASKER, NARROWER, NARROWER, at, COLUMN, GOLD)
    ensures Admits(ReachBefore(ASKER, NARROWER, NARROWER, at), COLUMN, row, at)
    ensures !Admits(DelegatedReach(ASKER, NARROWER, NARROWER, at), COLUMN, row, at)
  {
    TheWildcardSurvived(at);
    WildcardCoversColumn();
    HoldsAlone("asker", Grant(WILDCARD, {}), COLUMN, at);
    TheCeilingKeepsToGold(at, row);
    TheCeilingClauseIsLost(at);
    DelegatedReachIsTheMeet(ASKER, NARROWER, NARROWER, at, COLUMN, row, at);
  }

  lemma TheCeilingClauseIsLost(at: int)
    ensures LosesCeilingClause(ASKER, NARROWER, NARROWER, at, COLUMN, GOLD)
  {
    WildcardCoversColumn();
    assert ASKER.grants[0] in ASKER.grants;
    assert NARROWER.grants[0] in NARROWER.grants && NARROWER.grants[1] in NARROWER.grants;
    assert ClausesFor(NARROWER.grants, WILDCARD) == {};
    assert Survives(ASKER.grants[0], NARROWER, NARROWER, at);
    assert GOLD in ClausesFor(NARROWER.grants, COLUMN);
  }
}
