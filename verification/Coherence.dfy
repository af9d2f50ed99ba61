/**
 What a cached reach is worth: over every run of statements, exactly when the version in the cache key
 stays where it is although the reach behind it narrowed.
 */
module Coherence {
  import opened Wrappers
  import opened Ledger
  import opened Reach
  import opened Entitlements

  /** A statement that takes a row away from a principal by rewriting whose it is. */
  predicate TakesRowFrom(db: Db, s: Statement, p: string) {
    match s
    case UpdateGrant(id, g) => id in db.grants && db.grants[id].principal == p && g.principal != p
    case UpdateAssignment(id, a) => id in db.assignments && db.assignments[id].principal == p && a.principal != p
    case _ => false
  }

  /** It takes something: it is accepted, and the row it rewrites was one the resolver returned grants for. */
  predicate TakesReach(db: Db, s: Statement, p: string, now: int) {
    && RefusalOf(db, s).None? && Active(db, p) && TakesRowFrom(db, s, p)
    && match s
       case UpdateGrant(id, _) => GrantCounts(db, id, p, now)
       case UpdateAssignment(id, _) => AssignmentCounts(db, id, p, now) && PackOf(db, id) != []
       case _ => false
  }

  /** A statement that edits a principal's own bound in place. */
  predicate EditsBoundOf(db: Db, s: Statement, p: string) {
    s.UpdatePrincipal? && s.id == p && p in db.principals && s.principal.notAfter != db.principals[p].notAfter
  }

  /** Two states in which everything the resolver reads about a principal is the same. */
  ghost predicate SameRowsFor(db: Db, db': Db, p: string) {
    && (forall id | (id in db.grants && db.grants[id].principal == p)
                    || (id in db'.grants && db'.grants[id].principal == p) ::
          id in db.grants && id in db'.grants && db.grants[id] == db'.grants[id])
    && (forall id | (id in db.assignments && db.assignments[id].principal == p)
                    || (id in db'.assignments && db'.assignments[id].principal == p) ::
          id in db.assignments && id in db'.assignments && db.assignments[id] == db'.assignments[id])
    && (forall id | id in db.assignments && db.assignments[id].principal == p
                    && db.assignments[id].deletedAt.None? ::
          SamePack(db, db', db.assignments[id].pack))
  }

  predicate SamePack(db: Db, db': Db, pack: string) {
    (pack in db.packs <==> pack in db'.packs) && (pack in db.packs ==> db.packs[pack] == db'.packs[pack])
  }

  lemma SameRowsSameGrants(db: Db, db': Db, p: string, now: int)
    requires SameRowsFor(db, db', p) && Active(db, p) && Active(db', p)
    ensures ResolvedGrants(db, p, now) == ResolvedGrants(db', p, now)
  {
    forall id ensures GrantCounts(db, id, p, now) <==> GrantCounts(db', id, p, now) {
    }
    forall id
      ensures AssignmentCounts(db, id, p, now) <==> AssignmentCounts(db', id, p, now)
      ensures AssignmentCounts(db, id, p, now) ==> PackOf(db, id) == PackOf(db', id)
    {
    }
    SameHeld(db, db', p, now);
    SameHeld(db', db, p, now);
  }

  lemma SameHeld(db: Db, db': Db, p: string, now: int)
    requires SameRowsFor(db, db', p) && Active(db, p) && Active(db', p)
    requires forall id | GrantCounts(db, id, p, now) :: GrantCounts(db', id, p, now) && db.grants[id] == db'.grants[id]
    requires forall id | AssignmentCounts(db, id, p, now) ::
               && AssignmentCounts(db', id, p, now) && db.assignments[id] == db'.assignments[id]
               && PackOf(db, id) == PackOf(db', id)
    ensures ResolvedGrants(db, p, now) <= ResolvedGrants(db', p, now)
  {
  }

  /** What one statement may do to an active principal it leaves at the same version. */
  ghost predicate Undisturbed(db: Db, db': Db, p: string, taken: bool) {
    Active(db, p) ==> Active(db', p) && (!taken ==> SameRowsFor(db, db', p))
  }

  lemma BumpedVersion(versions: map<string, nat>, who: set<string>, p: string)
    ensures (if p in Bumped(versions, who) then Bumped(versions, who)[p] else 0)
         == (if p in versions then versions[p] else 0) + (if p in who then 1 else 0)
  {
  }

  /** No version goes back, and one that stays leaves its principal active, with the same rows unless one was taken. */
  ghost predicate Moves(db: Db, db': Db, p: string, taken: bool) {
    && Version(db, p) <= Version(db', p)
    && (Version(db', p) == Version(db, p) ==> Undisturbed(db, db', p, taken))
  }

  lemma PackWriteMovesHolders(db: Db, id: string, pack: Pack, p: string)
    ensures Moves(db, PackWritten(db, id, pack), p, false)
  {
    var db' := PackWritten(db, id, pack);
    BumpedVersion(db.versions, Holders(db.assignments, id), p);
    if p !in Holders(db.assignments, id) {
      forall k | k in db.assignments && db.assignments[k].principal == p && db.assignments[k].deletedAt.None?
        ensures SamePack(db, db', db.assignments[k].pack)
      {
        assert db.assignments[k].pack != id;
      }
    }
  }

  lemma GrantRowMovesItsPrincipal(db: Db, db': Db, id: string, g: GrantRow, p: string)
    requires db'.principals == db.principals && db'.packs == db.packs && db'.assignments == db.assignments
    requires db'.grants == db.grants[id := g] && db'.versions == Bumped(db.versions, {g.principal})
    ensures Moves(db, db', p, TakesRowFrom(db, UpdateGrant(id, g), p))
  {
    BumpedVersion(db.versions, {g.principal}, p);
  }

  lemma GrantWriteMovesItsPrincipal(sign: Signer, db: Db, id: string, g: GrantRow, ctx: Context, p: string)
    ensures Moves(db, GrantWritten(sign, db, id, g, ctx), p, TakesRowFrom(db, UpdateGrant(id, g), p))
  {
    RecordedWritesOnlyTheLedger(sign, GrantStored(db, id, g), GrantChange(id, g), GrantAction(db, id, g), ctx);
    GrantRowMovesItsPrincipal(db, GrantWritten(sign, db, id, g, ctx), id, g, p);
  }

  lemma AssignmentRowMovesItsPrincipal(db: Db, db': Db, id: string, a: Assignment, p: string)
    requires db'.principals == db.principals && db'.packs == db.packs && db'.grants == db.grants
    requires db'.assignments == db.assignments[id := a] && db'.versions == Bumped(db.versions, {a.principal})
    ensures Moves(db, db', p, TakesRowFrom(db, UpdateAssignment(id, a), p))
  {
    BumpedVersion(db.versions, {a.principal}, p);
  }

  lemma AssignmentWriteMovesItsPrincipal(sign: Signer, db: Db, id: string, a: Assignment, ctx: Context, p: string)
    ensures Moves(db, AssignmentWritten(sign, db, id, a, ctx), p, TakesRowFrom(db, UpdateAssignment(id, a), p))
  {
    var wrote := AssignmentStored(db, id, a);
    RecordedWritesOnlyTheLedger(sign, wrote, AssignmentChange(wrote, id, a), AssignmentAction(db, id, a), ctx);
    AssignmentRowMovesItsPrincipal(db, AssignmentWritten(sign, db, id, a, ctx), id, a, p);
  }

  lemma PrincipalWriteMovesIt(db: Db, id: string, q: Principal, now: int, p: string)
    requires id in db.principals
    ensures Moves(db, Cascaded(db.(principals := db.principals[id := q]), id, db.principals[id], q, now), p, false)
  {
    BumpedVersion(db.versions, {id}, p);
  }

  lemma NothingMoves(db: Db, db': Db, p: string)
    requires db'.principals == db.principals || (Active(db, p) ==> Active(db', p))
    requires db'.grants == db.grants && db'.assignments == db.assignments && db'.packs == db.packs
    requires db'.versions == db.versions
    ensures Moves(db, db', p, false)
  {
  }

  lemma AcceptedMovesTheVersion(sign: Signer, db: Db, s: Statement, ctx: Context, p: string)
    requires RefusalOf(db, s).None?
    ensures Moves(db, Execute(sign, db, s, ctx), p, TakesRowFrom(db, s, p))
  {
    match s
    case InsertPrincipal(id, q) => NothingMoves(db, Execute(sign, db, s, ctx), p);
    case UpdatePrincipal(id, q) =>
      if id in db.principals {
        PrincipalWriteMovesIt(db, id, q, ctx.now, p);
      } else {
        NothingMoves(db, db, p);
      }
    case InsertPack(id, pack) => PackWriteMovesHolders(db, id, pack, p);
    case UpdatePack(id, pack) => PackUpdateMoves(sign, db, id, pack, ctx, p);
    case InsertGrant(id, g) => GrantWriteMovesItsPrincipal(sign, db, id, g, ctx, p);
    case UpdateGrant(id, g) => GrantUpdateMoves(sign, db, id, g, ctx, p);
    case InsertAssignment(id, a) => AssignmentWriteMovesItsPrincipal(sign, db, id, a, ctx, p);
    case UpdateAssignment(id, a) => AssignmentUpdateMoves(sign, db, id, a, ctx, p);
    case OpenSession(id, session) => NothingMoves(db, Execute(sign, db, s, ctx), p);
  }

  lemma PackUpdateMoves(sign: Signer, db: Db, id: string, pack: Pack, ctx: Context, p: string)
    requires RefusalOf(db, UpdatePack(id, pack)).None?
    ensures Moves(db, Execute(sign, db, UpdatePack(id, pack), ctx), p, false)
  {
    if id in db.packs {
      PackWriteMovesHolders(db, id, pack, p);
    } else {
      NothingMoves(db, db, p);
    }
  }

  lemma GrantUpdateMoves(sign: Signer, db: Db, id: string, g: GrantRow, ctx: Context, p: string)
    requires RefusalOf(db, UpdateGrant(id, g)).None?
    ensures Moves(db, Execute(sign, db, UpdateGrant(id, g), ctx), p, TakesRowFrom(db, UpdateGrant(id, g), p))
  {
    if id in db.grants {
      GrantWriteMovesItsPrincipal(sign, db, id, g, ctx, p);
    } else {
      NothingMoves(db, db, p);
    }
  }

  lemma AssignmentUpdateMoves(sign: Signer, db: Db, id: string, a: Assignment, ctx: Context, p: string)
    requires RefusalOf(db, UpdateAssignment(id, a)).None?
    ensures Moves(db, Execute(sign, db, UpdateAssignment(id, a), ctx), p, TakesRowFrom(db, UpdateAssignment(id, a), p))
  {
    if id in db.assignments {
      AssignmentWriteMovesItsPrincipal(sign, db, id, a, ctx, p);
    } else {
      NothingMoves(db, db, p);
    }
  }

  /**
   Every statement that could take anything from a principal moves that principal's version, save
   one that rewrites whose a row is; and no statement moves a version back.
   */
  lemma StatementMovesTheVersion(sign: Signer, db: Db, s: Statement, ctx: Context, p: string)
    ensures Moves(db, Execute(sign, db, s, ctx), p, RefusalOf(db, s).None? && TakesRowFrom(db, s, p))
  {
    if RefusalOf(db, s).None? {
      AcceptedMovesTheVersion(sign, db, s, ctx, p);
    } else {
      NothingMoves(db, db, p);
    }
  }

  // ------------------------------------------------------------ exactly when a kept version is wrong

  function HeldThrough(db: Db, id: string): Held
    requires id in db.grants
  {
    ByGrant(id, db.grants[id].capability, db.grants[id].scope)
  }

  /** A grant moved away leaves everything but what it gave. */
  lemma MovedGrant(db: Db, db': Db, id: string, g: GrantRow, p: string, now: int)
    requires Active(db, p) && Active(db', p) && TakesRowFrom(db, UpdateGrant(id, g), p)
    requires db'.grants == db.grants[id := g] && db'.packs == db.packs && db'.assignments == db.assignments
    ensures ResolvedGrants(db', p, now) == ResolvedGrants(db, p, now) - {HeldThrough(db, id)}
  {
    forall k
      ensures GrantCounts(db', k, p, now) <==> k != id && GrantCounts(db, k, p, now)
      ensures AssignmentCounts(db', k, p, now) <==> AssignmentCounts(db, k, p, now)
      ensures AssignmentCounts(db, k, p, now) ==> PackOf(db', k) == PackOf(db, k)
    {
    }
    forall h ensures h in ResolvedGrants(db', p, now) <==> h in ResolvedGrants(db, p, now) && h != HeldThrough(db, id) {
      match h
      case ByGrant(row, _, _) => assert row == id || row !in db.grants || db'.grants[row] == db.grants[row];
      case ByPack(_, _, _, _) =>
    }
  }

  /** The grants a pack gives through one assignment. */
  function Through(db: Db, id: string): set<Held>
    requires id in db.assignments && db.assignments[id].pack in db.packs
  {
    set k | 0 <= k < |PackOf(db, id)| :: ByPack(id, k, PackOf(db, id)[k], db.assignments[id].scope)
  }

  /** An assignment moved away leaves everything but what its pack gave. */
  lemma MovedAssignment(db: Db, db': Db, id: string, a: Assignment, p: string, now: int)
    requires Active(db, p) && Active(db', p) && TakesRowFrom(db, UpdateAssignment(id, a), p)
    requires db'.assignments == db.assignments[id := a] && db'.packs == db.packs && db'.grants == db.grants
    ensures ResolvedGrants(db', p, now)
         == ResolvedGrants(db, p, now) - if AssignmentCounts(db, id, p, now) then Through(db, id) else {}
  {
    forall k | k != id
      ensures AssignmentCounts(db', k, p, now) == AssignmentCounts(db, k, p, now)
      ensures AssignmentCounts(db, k, p, now) ==> PackOf(db', k) == PackOf(db, k)
    {
    }
    forall k ensures GrantCounts(db', k, p, now) == GrantCounts(db, k, p, now) {
    }
    assert !AssignmentCounts(db', id, p, now);
  }

  lemma ThroughIsHeld(db: Db, id: string, p: string, now: int)
    requires Active(db, p) && AssignmentCounts(db, id, p, now)
    ensures Through(db, id) <= ResolvedGrants(db, p, now)
    ensures Through(db, id) != {} <==> PackOf(db, id) != []
  {
    if PackOf(db, id) != [] {
      assert ByPack(id, 0, PackOf(db, id)[0], db.assignments[id].scope) in Through(db, id);
    }
  }

  lemma GrantTakenExactly(sign: Signer, db: Db, id: string, g: GrantRow, ctx: Context, p: string, now: int)
    requires RefusalOf(db, UpdateGrant(id, g)).None? && Active(db, p) && TakesRowFrom(db, UpdateGrant(id, g), p)
    ensures var db' := Execute(sign, db, UpdateGrant(id, g), ctx);
            && Version(db', p) == Version(db, p)
            && ResolvedGrants(db', p, now) <= ResolvedGrants(db, p, now)
            && (ResolvedGrants(db', p, now) == ResolvedGrants(db, p, now) <==> !GrantCounts(db, id, p, now))
  {
    var db' := GrantWritten(sign, db, id, g, ctx);
    RecordedWritesOnlyTheLedger(sign, GrantStored(db, id, g), GrantChange(id, g), GrantAction(db, id, g), ctx);
    BumpedVersion(db.versions, {g.principal}, p);
    MovedGrant(db, db', id, g, p, now);
    assert HeldThrough(db, id) in ResolvedGrants(db, p, now) <==> GrantCounts(db, id, p, now);
  }

  lemma AssignmentTakenExactly(sign: Signer, db: Db, id: string, a: Assignment, ctx: Context, p: string, now: int)
    requires RefusalOf(db, UpdateAssignment(id, a)).None? && Active(db, p)
    requires TakesRowFrom(db, UpdateAssignment(id, a), p)
    ensures var db' := Execute(sign, db, UpdateAssignment(id, a), ctx);
            && Version(db', p) == Version(db, p)
            && ResolvedGrants(db', p, now) <= ResolvedGrants(db, p, now)
            && (ResolvedGrants(db', p, now) == ResolvedGrants(db, p, now)
                <==> !(AssignmentCounts(db, id, p, now) && PackOf(db, id) != []))
  {
    var db' := AssignmentWritten(sign, db, id, a, ctx);
    var wrote := AssignmentStored(db, id, a);
    RecordedWritesOnlyTheLedger(sign, wrote, AssignmentChange(wrote, id, a), AssignmentAction(db, id, a), ctx);
    BumpedVersion(db.versions, {a.principal}, p);
    MovedAssignment(db, db', id, a, p, now);
    if AssignmentCounts(db, id, p, now) {
      ThroughIsHeld(db, id, p, now);
      Removed(ResolvedGrants(db, p, now), Through(db, id));
    }
  }

  lemma Removed<T>(all: set<T>, some: set<T>)
    requires some <= all
    ensures all - some == all <==> some == {}
  {
    if some != {} {
      var x :| x in some;
      assert x in all && x !in all - some;
    }
  }

  /** What a statement that leaves an active principal's version where it was does to what they hold. */
  ghost predicate KeepsOrTakes(db: Db, db': Db, s: Statement, p: string, now: int) {
    && Active(db', p)
    && ResolvedGrants(db', p, now) <= ResolvedGrants(db, p, now)
    && (ResolvedGrants(db', p, now) == ResolvedGrants(db, p, now) <==> !TakesReach(db, s, p, now))
  }

  lemma AKeptVersionKeepsOrTakes(sign: Signer, db: Db, s: Statement, ctx: Context, p: string, now: int)
    requires Active(db, p) && Version(Execute(sign, db, s, ctx), p) == Version(db, p)
    ensures KeepsOrTakes(db, Execute(sign, db, s, ctx), s, p, now)
  {
    StatementMovesTheVersion(sign, db, s, ctx, p);
    if RefusalOf(db, s).None? && TakesRowFrom(db, s, p) {
      match s
      case UpdateGrant(id, g) => GrantTakenExactly(sign, db, id, g, ctx, p, now);
      case UpdateAssignment(id, a) => AssignmentTakenExactly(sign, db, id, a, ctx, p, now);
    } else {
      SameRowsSameGrants(db, Execute(sign, db, s, ctx), p, now);
    }
  }

  /**
   A statement leaves somebody's version alone and takes something they hold exactly when it moves to
   another principal a row that gives them something at that moment.
   */
  lemma AKeptVersionIsWrongIff(sign: Signer, db: Db, s: Statement, ctx: Context, p: string, now: int)
    ensures var db' := Execute(sign, db, s, ctx);
            (Version(db', p) == Version(db, p) && !(ResolvedGrants(db, p, now) <= ResolvedGrants(db', p, now))
             <==> TakesReach(db, s, p, now))
  {
    var db' := Execute(sign, db, s, ctx);
    if TakesReach(db, s, p, now) {
      match s
      case UpdateGrant(id, g) => GrantTakenExactly(sign, db, id, g, ctx, p, now);
      case UpdateAssignment(id, a) => AssignmentTakenExactly(sign, db, id, a, ctx, p, now);
    } else if Active(db, p) && Version(db', p) == Version(db, p) {
      AKeptVersionKeepsOrTakes(sign, db, s, ctx, p, now);
    }
  }

  // ------------------------------------------------------------ runs

  function After(sign: Signer, db: Db, run: seq<(Statement, Context)>): Db {
    if run == [] then db
    else
      var (s, ctx) := run[|run| - 1];
      Execute(sign, After(sign, db, run[..|run| - 1]), s, ctx)
  }

  predicate TakesAt(sign: Signer, db: Db, run: seq<(Statement, Context)>, i: nat, p: string, now: int)
    requires i < |run|
  {
    TakesReach(After(sign, db, run[..i]), run[i].0, p, now)
  }

  /** Some step of the run takes something from a principal without moving their version. */
  ghost predicate EverTakesReach(sign: Signer, db: Db, run: seq<(Statement, Context)>, p: string, now: int) {
    exists i: nat | i < |run| :: TakesAt(sign, db, run, i, p, now)
  }

  lemma TakesAtEarlier(sign: Signer, db: Db, run: seq<(Statement, Context)>, i: nat, p: string, now: int)
    requires i < |run| - 1
    ensures TakesAt(sign, db, run[..|run| - 1], i, p, now) == TakesAt(sign, db, run, i, p, now)
  {
    assert run[..|run| - 1][..i] == run[..i];
  }

  lemma EverTakesSnoc(sign: Signer, db: Db, run: seq<(Statement, Context)>, p: string, now: int)
    requires run != []
    ensures EverTakesReach(sign, db, run, p, now) <==>
            EverTakesReach(sign, db, run[..|run| - 1], p, now) || TakesAt(sign, db, run, |run| - 1, p, now)
  {
    if EverTakesReach(sign, db, run, p, now) {
      var i: nat :| i < |run| && TakesAt(sign, db, run, i, p, now);
      if i < |run| - 1 {
        TakesAtEarlier(sign, db, run, i, p, now);
      }
    }
    if EverTakesReach(sign, db, run[..|run| - 1], p, now) {
      var i: nat :| i < |run| - 1 && TakesAt(sign, db, run[..|run| - 1], i, p, now);
      TakesAtEarlier(sign, db, run, i, p, now);
    }
  }

  lemma {:induction false} VersionsOnlyRise(sign: Signer, db: Db, run: seq<(Statement, Context)>, p: string)
    ensures Version(db, p) <= Version(After(sign, db, run), p)
  {
    if run != [] {
      var (s, ctx) := run[|run| - 1];
      VersionsOnlyRise(sign, db, run[..|run| - 1], p);
      StatementMovesTheVersion(sign, After(sign, db, run[..|run| - 1]), s, ctx, p);
    }
  }

  /**
   Over a whole run that leaves an active principal's version where it was, they stay active, hold
   nothing they did not hold, and hold all of it still exactly when no step took a row that counts.
   */
  lemma {:induction false} RunMovesTheVersion(sign: Signer, db: Db, run: seq<(Statement, Context)>, p: string, now: int)
    requires Version(After(sign, db, run), p) == Version(db, p) && Active(db, p)
    ensures var db' := After(sign, db, run);
            && Active(db', p)
            && ResolvedGrants(db', p, now) <= ResolvedGrants(db, p, now)
            && (ResolvedGrants(db', p, now) == ResolvedGrants(db, p, now) <==> !EverTakesReach(sign, db, run, p, now))
  {
    if run != [] {
      var before := run[..|run| - 1];
      var middle := After(sign, db, before);
      var (s, ctx) := run[|run| - 1];
      VersionsOnlyRise(sign, db, before, p);
      StatementMovesTheVersion(sign, middle, s, ctx, p);
      RunMovesTheVersion(sign, db, before, p, now);
      AKeptVersionKeepsOrTakes(sign, middle, s, ctx, p, now);
      EverTakesSnoc(sign, db, run, p, now);
    }
  }

  /** Whether somebody holding these grants sees a record under a capability. */
  predicate AdmitsThrough(held: set<Held>, capability: string, row: Record) {
    && (exists h | h in held :: Covers(h.capability, capability))
    && (forall h | h in held && Covers(h.capability, capability) :: Matches(h.scope, row))
  }

  /** It is what a reach of these grants admits. */
  lemma AdmitsThroughIsAdmits(r: Reach, held: set<Held>, capability: string, row: Record, now: int)
    requires r.notAfter == None
    requires forall g :: g in r.grants <==> exists h | h in held :: g == Grant(h.capability, h.scope)
    ensures Admits(r, capability, row, now) <==> AdmitsThrough(held, capability, row)
  {
    AdmitsFromTheGrants(r, capability, row, now);
    forall h | h in held ensures Grant(h.capability, h.scope) in r.grants {
    }
    if Admits(r, capability, row, now) {
      forall h | h in held && Covers(h.capability, capability) ensures Matches(h.scope, row) {
        var g := Grant(h.capability, h.scope);
        assert g in r.grants && forall c | c in g.scope :: ClauseMatches(c, row);
      }
    }
  }

  /**
   When a stale cached reach is too wide, over every run: at the same version, the grants an earlier
   state resolved are all among the later ones unless the principal was active and some step moved a
   row that counts to somebody else. Otherwise they are the later ones exactly, or none because the
   principal was inactive, and the stale reach admits nothing the later one does not.
   */
  lemma AStaleReachIsNeverWide(sign: Signer, db: Db, run: seq<(Statement, Context)>, p: string, now: int,
                               capability: string, row: Record)
    requires Version(After(sign, db, run), p) == Version(db, p)
    ensures var stale := ResolvedGrants(db, p, now);
            var live := ResolvedGrants(After(sign, db, run), p, now);
            var taken := Active(db, p) && EverTakesReach(sign, db, run, p, now);
            && (stale <= live <==> !taken)
            && (!taken ==> stale == live || (!Active(db, p) && stale == {}))
            && (!taken && AdmitsThrough(stale, capability, row) ==> AdmitsThrough(live, capability, row))
  {
    if Active(db, p) {
      RunMovesTheVersion(sign, db, run, p, now);
    }
  }

  /** An active principal's bound is changed by exactly the statements that edit it. */
  lemma OnlyAnEditChangesTheBound(sign: Signer, db: Db, s: Statement, ctx: Context, p: string)
    requires Active(db, p) && Active(Execute(sign, db, s, ctx), p)
    ensures ResolvedBound(Execute(sign, db, s, ctx), p) == ResolvedBound(db, p) <==> !EditsBoundOf(db, s, p)
  {
  }

  ghost predicate EverEditsBoundOf(sign: Signer, db: Db, run: seq<(Statement, Context)>, p: string) {
    exists i | 0 <= i < |run| :: EditsBoundOf(After(sign, db, run[..i]), run[i].0, p)
  }

  lemma QuietPrefix(sign: Signer, db: Db, run: seq<(Statement, Context)>, p: string)
    requires run != [] && !EverEditsBoundOf(sign, db, run, p)
    ensures !EverEditsBoundOf(sign, db, run[..|run| - 1], p)
    ensures !EditsBoundOf(After(sign, db, run[..|run| - 1]), run[|run| - 1].0, p)
  {
    var before := run[..|run| - 1];
    forall i | 0 <= i < |before| ensures !EditsBoundOf(After(sign, db, before[..i]), before[i].0, p) {
      assert before[..i] == run[..i] && before[i] == run[i];
    }
  }

  /** The bound a cached reach carries is as good, as long as nobody edits the principal's own. */
  lemma {:induction false} AStaleBoundIsTheBound(sign: Signer, db: Db, run: seq<(Statement, Context)>, p: string)
    requires !EverEditsBoundOf(sign, db, run, p)
    requires Version(After(sign, db, run), p) == Version(db, p) && Active(db, p)
    ensures ResolvedBound(After(sign, db, run), p) == ResolvedBound(db, p)
  {
    if run != [] {
      var before := run[..|run| - 1];
      var (s, ctx) := run[|run| - 1];
      QuietPrefix(sign, db, run, p);
      VersionsOnlyRise(sign, db, before, p);
      StatementMovesTheVersion(sign, After(sign, db, before), s, ctx, p);
      AStaleBoundIsTheBound(sign, db, before, p);
      RunMovesTheVersion(sign, db, before, p, 0);
      OnlyAnEditChangesTheBound(sign, After(sign, db, before), s, ctx, p);
    }
  }

  // ------------------------------------------------------------ the two edits no trigger catches

  /** Rewriting whose a live grant is takes it away and leaves the version where it was. */
  lemma ARewrittenPrincipalIsNotCaught(sign: Signer, ctx: Context)
    ensures var db := Db(map["p" := Principal(None, None, None), "q" := Principal(None, None, None)],
                         map["g" := GrantRow("p", "read:client", {}, "q", None, None)],
                         map[], map[], map[], map["p" := 1], 1, []);
            var s := UpdateGrant("g", db.grants["g"].(principal := "q"));
            var db' := Execute(sign, db, s, ctx);
            && TakesRowFrom(db, s, "p") && RefusalOf(db, s).None?
            && Version(db', "p") == Version(db, "p")
            && ResolvedGrants(db, "p", 0) != {} && ResolvedGrants(db', "p", 0) == {}
  {
    var db := Db(map["p" := Principal(None, None, None), "q" := Principal(None, None, None)],
                 map["g" := GrantRow("p", "read:client", {}, "q", None, None)],
                 map[], map[], map[], map["p" := 1], 1, []);
    assert GrantCounts(db, "g", "p", 0);
    assert ByGrant("g", "read:client", {}) in ResolvedGrants(db, "p", 0);
    var g := db.grants["g"].(principal := "q");
    RecordedWritesOnlyTheLedger(sign, GrantStored(db, "g", g), GrantChange("g", g), GrantAction(db, "g", g), ctx);
    BumpedVersion(db.versions, {"q"}, "p");
    HoldsNoRow(GrantWritten(sign, db, "g", g, ctx), "p", 0);
  }

  lemma HoldsNoRow(db: Db, p: string, now: int)
    requires forall id | id in db.grants :: db.grants[id].principal != p
    requires db.assignments == map[]
    ensures ResolvedGrants(db, p, now) == {}
  {
  }

  /** Whatever the state, a counting grant moved to somebody without one like it is such a case. */
  lemma AMovedGrantIsNotCaught(sign: Signer, db: Db, ctx: Context, id: string, p: string, q: string, now: int)
    requires Active(db, p) && GrantCounts(db, id, p, now) && q in db.principals && q != p
    requires !GrantTaken(db, id, db.grants[id].(principal := q))
    ensures var db' := Execute(sign, db, UpdateGrant(id, db.grants[id].(principal := q)), ctx);
            && Version(db', p) == Version(db, p)
            && HeldThrough(db, id) in ResolvedGrants(db, p, now) && HeldThrough(db, id) !in ResolvedGrants(db', p, now)
  {
    var g := db.grants[id].(principal := q);
    var db' := GrantWritten(sign, db, id, g, ctx);
    RecordedWritesOnlyTheLedger(sign, GrantStored(db, id, g), GrantChange(id, g), GrantAction(db, id, g), ctx);
    BumpedVersion(db.versions, {q}, p);
    MovedGrant(db, db', id, g, p, now);
  }

  /** And so is a counting assignment of a pack that gives anything. */
  lemma AMovedAssignmentIsNotCaught(sign: Signer, db: Db, ctx: Context, id: string, p: string, q: string, now: int)
    requires Active(db, p) && AssignmentCounts(db, id, p, now) && PackOf(db, id) != []
    requires q in db.principals && q != p && !AssignmentTaken(db, id, db.assignments[id].(principal := q))
    ensures var db' := Execute(sign, db, UpdateAssignment(id, db.assignments[id].(principal := q)), ctx);
            && Version(db', p) == Version(db, p)
            && Through(db, id) <= ResolvedGrants(db, p, now) && Through(db, id) !! ResolvedGrants(db', p, now)
  {
    var a := db.assignments[id].(principal := q);
    var db' := AssignmentWritten(sign, db, id, a, ctx);
    var wrote := AssignmentStored(db, id, a);
    RecordedWritesOnlyTheLedger(sign, wrote, AssignmentChange(wrote, id, a), AssignmentAction(db, id, a), ctx);
    BumpedVersion(db.versions, {q}, p);
    MovedAssignment(db, db', id, a, p, now);
    ThroughIsHeld(db, id, p, now);
  }

  /** Bringing a principal's own expiry forward leaves the version, and so the cached bound, alone. */
  lemma AnEditedBoundIsNotCaught(sign: Signer, db: Db, ctx: Context, p: string, sooner: int)
    requires Active(db, p) && db.principals[p].notAfter != Some(sooner)
    ensures var s := UpdatePrincipal(p, db.principals[p].(notAfter := Some(sooner)));
            var db' := Execute(sign, db, s, ctx);
            && EditsBoundOf(db, s, p) && Version(db', p) == Version(db, p)
            && ResolvedBound(db', p) != ResolvedBound(db, p)
  {
  }

  // ------------------------------------------------------------ sessions

  /** Disabling or retiring somebody ends every session of theirs, and moves their version. */
  lemma TheCascadeEndsEverySession(sign: Signer, db: Db, ctx: Context, p: string, after: Principal, id: string)
    requires p in db.principals && CascadeReason(db.principals[p], after).Some?
    ensures var db' := Execute(sign, db, UpdatePrincipal(p, after), ctx);
            && Version(db', p) == Version(db, p) + 1
            && (id in db.sessions <==> id in db'.sessions)
            && (id in db'.sessions && db'.sessions[id].principal == p ==> db'.sessions[id].ended.Some?)
            && (id in db.sessions && db.sessions[id].principal == p && db.sessions[id].ended.None? ==>
                  db'.sessions[id].ended ==
                    Some((ctx.now, if after.deletedAt.Some? && db.principals[p].deletedAt.None?
                                   then PrincipalRetired else PrincipalDisabled)))
  {
    BumpedVersion(db.versions, {p}, p);
  }

  /** No run of statements, re-enabling included, brings an ended session back or rewrites its end. */
  lemma {:induction false} AnEndedSessionStaysEnded(sign: Signer, db: Db, run: seq<(Statement, Context)>, id: string)
    requires id in db.sessions && db.sessions[id].ended.Some?
    ensures id in After(sign, db, run).sessions && After(sign, db, run).sessions[id] == db.sessions[id]
  {
    if run != [] {
      AnEndedSessionStaysEnded(sign, db, run[..|run| - 1], id);
      var (s, ctx) := run[|run| - 1];
      var middle := After(sign, db, run[..|run| - 1]);
      match s
      case UpdatePrincipal(p, after) =>
      case _ =>
    }
  }
}
