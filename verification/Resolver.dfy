/** What `gate.resolve_entitlements` gives, said of the rows' own columns, and what time alone does to it. */
module Resolver {
  import opened Wrappers
  import opened Reach
  import opened Entitlements

  /** Somebody who is there, and neither disabled nor retired. */
  predicate Stands(db: Db, p: string) {
    p in db.principals && db.principals[p].disabledAt == None && db.principals[p].deletedAt == None
  }

  /** A grant gives its capability in its scope to its principal, until it is retired or its bound comes. */
  lemma WhatAGrantGives(db: Db, p: string, now: int, id: string, capability: string, scope: Scope)
    ensures ByGrant(id, capability, scope) in ResolvedGrants(db, p, now) <==>
            && Stands(db, p) && id in db.grants
            && db.grants[id].principal == p && db.grants[id].deletedAt == None
            && (forall bound | db.grants[id].notAfter == Some(bound) :: now < bound)
            && db.grants[id].capability == capability && db.grants[id].scope == scope
  {
  }

  /** An assignment gives each capability of its pack in its own scope, until either is retired or its bound comes. */
  lemma WhatAnAssignmentGives(db: Db, p: string, now: int, id: string, place: nat, capability: string, scope: Scope)
    ensures ByPack(id, place, capability, scope) in ResolvedGrants(db, p, now) <==>
            && Stands(db, p) && id in db.assignments
            && db.assignments[id].principal == p && db.assignments[id].deletedAt == None
            && (forall bound | db.assignments[id].notAfter == Some(bound) :: now < bound)
            && db.assignments[id].pack in db.packs && db.packs[db.assignments[id].pack].deletedAt == None
            && place < |db.packs[db.assignments[id].pack].capabilities|
            && db.packs[db.assignments[id].pack].capabilities[place] == capability
            && db.assignments[id].scope == scope
  {
    if Stands(db, p) && AssignmentCounts(db, id, p, now) && place < |PackOf(db, id)| {
      assert ByPack(id, place, PackOf(db, id)[place], db.assignments[id].scope) in ResolvedGrants(db, p, now);
    }
  }

  /** From its bound on a grant gives nothing, and before it, while it is unretired, it gives what it says. */
  lemma ABoundIsWhereAGrantEnds(db: Db, p: string, now: int, id: string, bound: int)
    requires Stands(db, p) && id in db.grants && db.grants[id].principal == p
    requires db.grants[id].notAfter == Some(bound) && db.grants[id].deletedAt == None
    ensures ByGrant(id, db.grants[id].capability, db.grants[id].scope) in ResolvedGrants(db, p, now) <==> now < bound
    ensures bound <= now ==> forall c, s :: ByGrant(id, c, s) !in ResolvedGrants(db, p, now)
  {
    WhatAGrantGives(db, p, now, id, db.grants[id].capability, db.grants[id].scope);
    if bound <= now {
      forall c, s ensures ByGrant(id, c, s) !in ResolvedGrants(db, p, now) {
        WhatAGrantGives(db, p, now, id, c, s);
      }
    }
  }

  /** A retired grant gives nothing, nor a retired assignment, nor an assignment of a retired pack. */
  lemma WhatIsRetiredGivesNothing(db: Db, p: string, now: int, h: Held)
    requires h in ResolvedGrants(db, p, now)
    ensures h.ByGrant? ==> h.row in db.grants && db.grants[h.row].deletedAt == None
    ensures h.ByPack? ==>
              && h.row in db.assignments && db.assignments[h.row].deletedAt == None
              && db.assignments[h.row].pack in db.packs && db.packs[db.assignments[h.row].pack].deletedAt == None
  {
  }

  /** Whoever is not there, or is disabled or retired, resolves to nothing. */
  lemma WhoeverDoesNotStandHoldsNothing(db: Db, p: string, now: int)
    requires !Stands(db, p)
    ensures ResolvedGrants(db, p, now) == {}
  {
  }

  /** A retired principal has no bound; anybody else has their own. */
  lemma WhoseBoundItIs(db: Db, p: string, bound: int)
    ensures ResolvedBound(db, p) == Some(bound) <==>
            p in db.principals && db.principals[p].deletedAt == None && db.principals[p].notAfter == Some(bound)
  {
  }

  /** The bound of the row something came from. */
  function BoundOf(db: Db, h: Held): Option<int> {
    match h
    case ByGrant(row, _, _) => if row in db.grants then db.grants[row].notAfter else None
    case ByPack(row, _, _, _) => if row in db.assignments then db.assignments[row].notAfter else None
  }

  /** Its row's bound came after one moment and by another. */
  predicate LapsesBetween(db: Db, h: Held, t1: int, t2: int) {
    BoundOf(db, h).Some? && t1 < BoundOf(db, h).value <= t2
  }

  /** Time alone takes from what somebody holds exactly what lapses, and gives nothing. */
  lemma TimeTakesWhatLapses(db: Db, p: string, t1: int, t2: int, h: Held)
    requires t1 <= t2
    ensures h in ResolvedGrants(db, p, t2) <==> h in ResolvedGrants(db, p, t1) && !LapsesBetween(db, h, t1, t2)
  {
    match h
    case ByGrant(id, c, s) =>
      WhatAGrantGives(db, p, t1, id, c, s);
      WhatAGrantGives(db, p, t2, id, c, s);
    case ByPack(id, k, c, s) =>
      WhatAnAssignmentGives(db, p, t1, id, k, c, s);
      WhatAnAssignmentGives(db, p, t2, id, k, c, s);
  }

  lemma HeldSinceTime(db: Db, p: string, t1: int, t2: int)
    requires t1 <= t2
    ensures ResolvedGrants(db, p, t2) == set h | h in ResolvedGrants(db, p, t1) && !LapsesBetween(db, h, t1, t2)
  {
    forall h
      ensures h in ResolvedGrants(db, p, t2) <==> h in ResolvedGrants(db, p, t1) && !LapsesBetween(db, h, t1, t2)
    {
      TimeTakesWhatLapses(db, p, t1, t2, h);
    }
  }
}
