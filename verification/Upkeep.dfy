/**
 What statements and their triggers keep, and what they leave alone: which rows there are, how many of
 them may be live, which versions move and whose sessions end.
 */
module Upkeep {
  import opened Wrappers
  import opened Ledger
  import opened Reach
  import opened Entitlements
  import opened Coherence

  // ------------------------------------------------------------ sessions

  /** Whether an update newly disables or retires somebody. */
  predicate PutsOut(db: Db, s: Statement, p: string) {
    && s.UpdatePrincipal? && s.id == p && p in db.principals
    && ((db.principals[p].deletedAt == None && s.principal.deletedAt != None)
        || (db.principals[p].disabledAt == None && s.principal.disabledAt != None))
  }

  /** What a session that is put out says. */
  function PutOutBy(db: Db, s: Statement, ctx: Context): (int, EndReason)
    requires s.UpdatePrincipal? && s.id in db.principals
  {
    (ctx.now, if db.principals[s.id].deletedAt == None && s.principal.deletedAt != None
              then PrincipalRetired else PrincipalDisabled)
  }

  /**
   A session that is there goes on as it is, and ends only where it is open and its own principal is put
   out; then it says when, and the stronger of the two reasons.
   */
  lemma ASessionEndsOnlyWithItsPrincipal(sign: Signer, db: Db, s: Statement, ctx: Context, id: string)
    requires id in db.sessions
    ensures var db' := Execute(sign, db, s, ctx);
            && id in db'.sessions
            && db'.sessions[id] ==
                 if db.sessions[id].ended == None && PutsOut(db, s, db.sessions[id].principal)
                 then Session(db.sessions[id].principal, Some(PutOutBy(db, s, ctx)))
                 else db.sessions[id]
  {
    SessionsAfter(sign, db, s, ctx);
  }

  lemma SessionsAfter(sign: Signer, db: Db, s: Statement, ctx: Context)
    ensures !s.UpdatePrincipal? && !s.OpenSession? ==> Execute(sign, db, s, ctx).sessions == db.sessions
    ensures s.OpenSession? ==>
              Execute(sign, db, s, ctx).sessions ==
                if RefusalOf(db, s).Some? then db.sessions else db.sessions[s.id := s.session]
  {
    if s.InsertGrant? || s.UpdateGrant? || s.InsertAssignment? || s.UpdateAssignment? {
      AuditedWritesNoOtherTable(sign, db, s, ctx);
    }
  }

  /** Step i of a run puts out this principal. */
  predicate PutsOutAt(sign: Signer, db: Db, run: seq<(Statement, Context)>, i: nat, p: string)
    requires i < |run|
  {
    PutsOut(After(sign, db, run[..i]), run[i].0, p)
  }

  ghost predicate EverPutOut(sign: Signer, db: Db, run: seq<(Statement, Context)>, p: string) {
    exists i: nat | i < |run| :: PutsOutAt(sign, db, run, i, p)
  }

  lemma PutsOutEarlier(sign: Signer, db: Db, run: seq<(Statement, Context)>, i: nat, p: string)
    requires i < |run| - 1
    ensures PutsOutAt(sign, db, run[..|run| - 1], i, p) == PutsOutAt(sign, db, run, i, p)
  {
    assert run[..|run| - 1][..i] == run[..i];
  }

  lemma EverPutOutSnoc(sign: Signer, db: Db, run: seq<(Statement, Context)>, p: string)
    requires run != []
    ensures EverPutOut(sign, db, run, p) <==>
            EverPutOut(sign, db, run[..|run| - 1], p) || PutsOutAt(sign, db, run, |run| - 1, p)
  {
    if EverPutOut(sign, db, run, p) {
      var i: nat :| i < |run| && PutsOutAt(sign, db, run, i, p);
      if i < |run| - 1 {
        PutsOutEarlier(sign, db, run, i, p);
      }
    }
    if EverPutOut(sign, db, run[..|run| - 1], p) {
      var i: nat :| i < |run| - 1 && PutsOutAt(sign, db, run[..|run| - 1], i, p);
      PutsOutEarlier(sign, db, run, i, p);
    }
  }

  /** Over every run an open session is still its principal's, and ended exactly if some step put that principal out. */
  lemma {:induction false} AnOpenSessionEndsIff(sign: Signer, db: Db, run: seq<(Statement, Context)>, id: string)
    requires id in db.sessions && db.sessions[id].ended == None
    ensures var after := After(sign, db, run);
            && id in after.sessions && after.sessions[id].principal == db.sessions[id].principal
            && (after.sessions[id].ended == None <==> !EverPutOut(sign, db, run, db.sessions[id].principal))
  {
    if run != [] {
      var (s, ctx) := run[|run| - 1];
      AnOpenSessionEndsIff(sign, db, run[..|run| - 1], id);
      EverPutOutSnoc(sign, db, run, db.sessions[id].principal);
      ASessionEndsOnlyWithItsPrincipal(sign, After(sign, db, run[..|run| - 1]), s, ctx, id);
    }
  }

  // ------------------------------------------------------------ which versions move

  /** Whose version a statement moves: the written row's, every unretired holder's of a pack, or somebody put out. */
  predicate Touches(db: Db, s: Statement, p: string) {
    && RefusalOf(db, s) == None
    && match s
       case InsertGrant(_, g) => g.principal == p
       case UpdateGrant(id, g) => id in db.grants && g.principal == p
       case InsertAssignment(_, a) => a.principal == p
       case UpdateAssignment(id, a) => id in db.assignments && a.principal == p
       case InsertPack(id, _) => HoldsPack(db, id, p)
       case UpdatePack(id, _) => id in db.packs && HoldsPack(db, id, p)
       case UpdatePrincipal(_, _) => PutsOut(db, s, p)
       case _ => false
  }

  predicate HoldsPack(db: Db, pack: string, p: string) {
    exists k | k in db.assignments ::
      db.assignments[k].principal == p && db.assignments[k].pack == pack && db.assignments[k].deletedAt == None
  }

  /** Whether a statement writes one of the three tables that hold policy. */
  predicate WritesPolicy(db: Db, s: Statement) {
    && RefusalOf(db, s) == None
    && match s
       case UpdateGrant(id, _) => id in db.grants
       case UpdateAssignment(id, _) => id in db.assignments
       case UpdatePack(id, _) => id in db.packs
       case _ => s.InsertGrant? || s.InsertAssignment? || s.InsertPack?
  }

  /** A version moved by one or not, and the epoch too. */
  predicate MovesBy(db: Db, db': Db, p: string, touched: bool, policy: bool) {
    && Version(db', p) == Version(db, p) + (if touched then 1 else 0)
    && db'.epoch == db.epoch + (if policy then 1 else 0)
  }

  /** Each statement moves by one the versions of exactly those it touches, and the epoch if it writes policy. */
  lemma AVersionMovesIff(sign: Signer, db: Db, s: Statement, ctx: Context, p: string)
    ensures MovesBy(db, Execute(sign, db, s, ctx), p, Touches(db, s, p), WritesPolicy(db, s))
  {
    if RefusalOf(db, s) == None {
      if s.InsertGrant? || s.UpdateGrant? {
        GrantStatementMoves(sign, db, s, ctx, p);
      } else if s.InsertAssignment? || s.UpdateAssignment? {
        AssignmentStatementMoves(sign, db, s, ctx, p);
      } else {
        OtherStatementMoves(sign, db, s, ctx, p);
      }
    }
  }

  lemma GrantStatementMoves(sign: Signer, db: Db, s: Statement, ctx: Context, p: string)
    requires RefusalOf(db, s) == None && (s.InsertGrant? || s.UpdateGrant?)
    ensures MovesBy(db, Execute(sign, db, s, ctx), p, Touches(db, s, p), WritesPolicy(db, s))
  {
    GrantMoves(sign, db, s.id, s.grant, ctx, p);
  }

  lemma AssignmentStatementMoves(sign: Signer, db: Db, s: Statement, ctx: Context, p: string)
    requires RefusalOf(db, s) == None && (s.InsertAssignment? || s.UpdateAssignment?)
    ensures MovesBy(db, Execute(sign, db, s, ctx), p, Touches(db, s, p), WritesPolicy(db, s))
  {
    AssignmentMoves(sign, db, s.id, s.assignment, ctx, p);
  }

  lemma OtherStatementMoves(sign: Signer, db: Db, s: Statement, ctx: Context, p: string)
    requires RefusalOf(db, s) == None
    requires s.InsertPrincipal? || s.UpdatePrincipal? || s.InsertPack? || s.UpdatePack? || s.OpenSession?
    ensures MovesBy(db, Execute(sign, db, s, ctx), p, Touches(db, s, p), WritesPolicy(db, s))
  {
    match s
    case InsertPack(id, pack) => PackMoves(db, id, pack, p);
    case UpdatePack(id, pack) => PackMoves(db, id, pack, p);
    case UpdatePrincipal(id, q) => BumpedVersion(db.versions, {id}, p);
    case _ =>
  }

  lemma GrantMoves(sign: Signer, db: Db, id: string, g: GrantRow, ctx: Context, p: string)
    ensures var db' := GrantWritten(sign, db, id, g, ctx);
            MovesBy(db, db', p, g.principal == p, true)
  {
    RecordedWritesOnlyTheLedger(sign, GrantStored(db, id, g), GrantChange(id, g), GrantAction(db, id, g), ctx);
    BumpedVersion(db.versions, {g.principal}, p);
  }

  lemma AssignmentMoves(sign: Signer, db: Db, id: string, a: Assignment, ctx: Context, p: string)
    ensures var db' := AssignmentWritten(sign, db, id, a, ctx);
            MovesBy(db, db', p, a.principal == p, true)
  {
    var wrote := AssignmentStored(db, id, a);
    RecordedWritesOnlyTheLedger(sign, wrote, AssignmentChange(wrote, id, a), AssignmentAction(db, id, a), ctx);
    BumpedVersion(db.versions, {a.principal}, p);
  }

  lemma PackMoves(db: Db, id: string, pack: Pack, p: string)
    ensures var db' := PackWritten(db, id, pack);
            MovesBy(db, db', p, HoldsPack(db, id, p), true)
  {
    BumpedVersion(db.versions, Holders(db.assignments, id), p);
    assert p in Holders(db.assignments, id) <==> HoldsPack(db, id, p);
  }

  // ------------------------------------------------------------ which rows there are

  /** Two live grants of one capability to one principal are one grant, and so for assignments and packs. */
  ghost predicate OneLiveEach(db: Db) {
    && (forall i, j | i in db.grants && j in db.grants && i != j :: !SameLiveGrant(db.grants[i], db.grants[j]))
    && (forall i, j | i in db.assignments && j in db.assignments && i != j ::
          !SameLiveAssignment(db.assignments[i], db.assignments[j]))
    && (forall i, j | i in db.packs && j in db.packs && i != j :: !SameLivePack(db.packs[i], db.packs[j]))
  }

  predicate SameLiveGrant(g: GrantRow, h: GrantRow) {
    g.deletedAt == None && h.deletedAt == None && g.principal == h.principal && g.capability == h.capability
  }

  predicate SameLiveAssignment(a: Assignment, b: Assignment) {
    a.deletedAt == None && b.deletedAt == None && a.principal == b.principal && a.pack == b.pack
  }

  predicate SameLivePack(k: Pack, l: Pack) {
    k.deletedAt == None && l.deletedAt == None && k.name == l.name
  }

  /** Every row's principal is there, and every assignment's pack. */
  ghost predicate Anchored(db: Db) {
    && (forall i | i in db.grants :: db.grants[i].principal in db.principals)
    && (forall i | i in db.assignments ::
          db.assignments[i].principal in db.principals && db.assignments[i].pack in db.packs)
    && (forall i | i in db.sessions :: db.sessions[i].principal in db.principals)
  }

  /** What a statement writes: its own row, if it is accepted and is an insert or finds the row, and no other. */
  ghost predicate WritesItsRow(db: Db, db': Db, s: Statement) {
    var ok := RefusalOf(db, s) == None;
    && db'.principals == (match s
                          case InsertPrincipal(id, p) => if ok then db.principals[id := p] else db.principals
                          case UpdatePrincipal(id, p) =>
                            if ok && id in db.principals then db.principals[id := p] else db.principals
                          case _ => db.principals)
    && db'.packs == (match s
                     case InsertPack(id, k) => if ok then db.packs[id := k] else db.packs
                     case UpdatePack(id, k) => if ok && id in db.packs then db.packs[id := k] else db.packs
                     case _ => db.packs)
    && WritesThoseRows(db, db', s)
  }

  lemma AStatementWritesItsRow(sign: Signer, db: Db, s: Statement, ctx: Context)
    ensures WritesItsRow(db, Execute(sign, db, s, ctx), s)
  {
    ExecutedRows(sign, db, s, ctx);
    if s.InsertGrant? || s.UpdateGrant? || s.InsertAssignment? || s.UpdateAssignment? {
      AuditedWritesNoOtherTable(sign, db, s, ctx);
    }
  }

  lemma AuditedWritesNoOtherTable(sign: Signer, db: Db, s: Statement, ctx: Context)
    requires s.InsertGrant? || s.UpdateGrant? || s.InsertAssignment? || s.UpdateAssignment?
    ensures var db' := Execute(sign, db, s, ctx);
            db'.principals == db.principals && db'.packs == db.packs && db'.sessions == db.sessions
  {
    if s.InsertGrant? || s.UpdateGrant? {
      RecordedWritesOnlyTheLedger(sign, GrantStored(db, s.id, s.grant), GrantChange(s.id, s.grant),
                                  GrantAction(db, s.id, s.grant), ctx);
    } else {
      var wrote := AssignmentStored(db, s.id, s.assignment);
      RecordedWritesOnlyTheLedger(sign, wrote, AssignmentChange(wrote, s.id, s.assignment),
                                  AssignmentAction(db, s.id, s.assignment), ctx);
    }
  }

  /** Why a write of a grant is refused, of the rows there are. */
  lemma AGrantIsRefusedIff(db: Db, id: string, g: GrantRow)
    ensures RefusalOf(db, InsertGrant(id, g)) != None <==>
            || id in db.grants || g.principal !in db.principals
            || exists k | k in db.grants :: k != id && SameLiveGrant(g, db.grants[k])
    ensures RefusalOf(db, UpdateGrant(id, g)) != None <==>
            && id in db.grants
            && (|| g.principal !in db.principals
                || exists k | k in db.grants :: k != id && SameLiveGrant(g, db.grants[k]))
  {
    assert GrantTaken(db, id, g) <==> exists k | k in db.grants :: k != id && SameLiveGrant(g, db.grants[k]);
  }

  lemma AnAssignmentIsRefusedIff(db: Db, id: string, a: Assignment)
    ensures RefusalOf(db, InsertAssignment(id, a)) != None <==>
            || id in db.assignments || a.principal !in db.principals || a.pack !in db.packs
            || exists k | k in db.assignments :: k != id && SameLiveAssignment(a, db.assignments[k])
    ensures RefusalOf(db, UpdateAssignment(id, a)) != None <==>
            && id in db.assignments
            && (|| a.principal !in db.principals || a.pack !in db.packs
                || exists k | k in db.assignments :: k != id && SameLiveAssignment(a, db.assignments[k]))
  {
    assert AssignmentTaken(db, id, a) <==>
           exists k | k in db.assignments :: k != id && SameLiveAssignment(a, db.assignments[k]);
  }

  lemma APackIsRefusedIff(db: Db, id: string, pack: Pack)
    ensures RefusalOf(db, InsertPack(id, pack)) != None <==>
            id in db.packs || exists k | k in db.packs :: k != id && SameLivePack(pack, db.packs[k])
    ensures RefusalOf(db, UpdatePack(id, pack)) != None <==>
            id in db.packs && exists k | k in db.packs :: k != id && SameLivePack(pack, db.packs[k])
  {
    assert PackTaken(db, id, pack) <==> exists k | k in db.packs :: k != id && SameLivePack(pack, db.packs[k]);
  }

  lemma GrantsStayOneLive(db: Db, db': Db, s: Statement)
    requires OneLiveEach(db) && WritesItsRow(db, db', s)
    ensures forall i, j | i in db'.grants && j in db'.grants && i != j :: !SameLiveGrant(db'.grants[i], db'.grants[j])
  {
    if s.InsertGrant? || s.UpdateGrant? {
      AGrantIsRefusedIff(db, s.id, s.grant);
    }
  }

  lemma AssignmentsStayOneLive(db: Db, db': Db, s: Statement)
    requires OneLiveEach(db) && WritesItsRow(db, db', s)
    ensures forall i, j | i in db'.assignments && j in db'.assignments && i != j ::
              !SameLiveAssignment(db'.assignments[i], db'.assignments[j])
  {
    if s.InsertAssignment? || s.UpdateAssignment? {
      AnAssignmentIsRefusedIff(db, s.id, s.assignment);
    }
  }

  lemma PacksStayOneLive(db: Db, db': Db, s: Statement)
    requires OneLiveEach(db) && WritesItsRow(db, db', s)
    ensures forall i, j | i in db'.packs && j in db'.packs && i != j :: !SameLivePack(db'.packs[i], db'.packs[j])
  {
    if s.InsertPack? || s.UpdatePack? {
      APackIsRefusedIff(db, s.id, s.pack);
    }
  }

  lemma StaysAnchored(sign: Signer, db: Db, s: Statement, ctx: Context)
    requires Anchored(db)
    ensures Anchored(Execute(sign, db, s, ctx))
  {
    var db' := Execute(sign, db, s, ctx);
    AStatementWritesItsRow(sign, db, s, ctx);
    SessionsAfter(sign, db, s, ctx);
    forall i | i in db'.sessions ensures db'.sessions[i].principal in db'.principals {
      if i in db.sessions {
        ASessionEndsOnlyWithItsPrincipal(sign, db, s, ctx, i);
      }
    }
    RowsStayAnchored(db, db', s);
  }

  lemma RowsStayAnchored(db: Db, db': Db, s: Statement)
    requires Anchored(db) && WritesItsRow(db, db', s)
    ensures forall i | i in db'.grants :: db'.grants[i].principal in db'.principals
    ensures forall i | i in db'.assignments ::
              db'.assignments[i].principal in db'.principals && db'.assignments[i].pack in db'.packs
  {
    if s.InsertGrant? || s.UpdateGrant? {
      AGrantIsRefusedIff(db, s.id, s.grant);
    } else if s.InsertAssignment? || s.UpdateAssignment? {
      AnAssignmentIsRefusedIff(db, s.id, s.assignment);
    }
  }

  /**
   Over every run there is at most one live grant of a capability to a principal, one live assignment of
   a pack to a principal and one live pack of a name, and no row names anybody or any pack that is not there.
   */
  lemma {:induction false} EveryRunIsKeptUp(sign: Signer, run: seq<(Statement, Context)>)
    ensures OneLiveEach(After(sign, NOTHING, run)) && Anchored(After(sign, NOTHING, run))
  {
    if run != [] {
      var db := After(sign, NOTHING, run[..|run| - 1]);
      var (s, ctx) := run[|run| - 1];
      EveryRunIsKeptUp(sign, run[..|run| - 1]);
      AStatementWritesItsRow(sign, db, s, ctx);
      GrantsStayOneLive(db, Execute(sign, db, s, ctx), s);
      AssignmentsStayOneLive(db, Execute(sign, db, s, ctx), s);
      PacksStayOneLive(db, Execute(sign, db, s, ctx), s);
      StaysAnchored(sign, db, s, ctx);
    }
  }

  const NOTHING := Db(map[], map[], map[], map[], map[], map[], 0, [])
}
