/**
 The permission tables, `gate.resolve_entitlements`, and the triggers that move the counters, end
 the sessions and write the ledger. `Execute` says what each statement does to the whole state;
 the class `Gate` does it in place, one trigger body at a time.
 */
module Entitlements {
  import opened Wrappers
  import opened Text
  import opened AuditHash
  import opened Ledger
  import opened Reach

  datatype Principal = Principal(notAfter: Option<int>, disabledAt: Option<int>, deletedAt: Option<int>)

  datatype GrantRow = GrantRow(principal: string, capability: string, scope: Scope, grantedBy: string,
                               notAfter: Option<int>, deletedAt: Option<int>)

  datatype Pack = Pack(name: string, capabilities: seq<string>, deletedAt: Option<int>)

  datatype Assignment = Assignment(principal: string, pack: string, scope: Scope, grantedBy: string,
                                   notAfter: Option<int>, deletedAt: Option<int>)

  datatype EndReason = Lapsed | PrincipalDisabled | PrincipalRetired | SignedOut

  /** A session that has ended says when and why. */
  datatype Session = Session(principal: string, ended: Option<(int, EndReason)>)

  datatype Db = Db(principals: map<string, Principal>, grants: map<string, GrantRow>,
                   packs: map<string, Pack>, assignments: map<string, Assignment>,
                   sessions: map<string, Session>, versions: map<string, nat>, epoch: nat,
                   ledger: seq<Entry>)

  type Moment = t: Instant | IsInstant(t) witness Instant(1, 1, 1, 0, 0, 0, 0)

  /** The transaction a statement runs in: its clock, and the settings it was given, or "". */
  datatype Context = Context(now: int, moment: Moment, actor: string, entHash: string, trace: string)

  datatype Statement =
    | InsertPrincipal(id: string, principal: Principal)
    | UpdatePrincipal(id: string, principal: Principal)
    | InsertPack(id: string, pack: Pack)
    | UpdatePack(id: string, pack: Pack)
    | InsertGrant(id: string, grant: GrantRow)
    | UpdateGrant(id: string, grant: GrantRow)
    | InsertAssignment(id: string, assignment: Assignment)
    | UpdateAssignment(id: string, assignment: Assignment)
    | OpenSession(id: string, session: Session)

  datatype Refusal = KeyTaken | NoSuchPrincipal | NoSuchPack | AlreadyLive

  // ------------------------------------------------------------ gate.resolve_entitlements

  /** One row of the resolver's union, with the row and the place in it that it came from. */
  datatype Held =
    | ByGrant(row: string, capability: string, scope: Scope)
    | ByPack(row: string, place: nat, capability: string, scope: Scope)

  predicate Active(db: Db, p: string) {
    p in db.principals && db.principals[p].deletedAt.None? && db.principals[p].disabledAt.None?
  }

  predicate Current(deletedAt: Option<int>, notAfter: Option<int>, now: int) {
    deletedAt.None? && (notAfter.None? || notAfter.value > now)
  }

  predicate GrantCounts(db: Db, id: string, p: string, now: int) {
    && id in db.grants && db.grants[id].principal == p
    && Current(db.grants[id].deletedAt, db.grants[id].notAfter, now)
  }

  predicate AssignmentCounts(db: Db, id: string, p: string, now: int) {
    && id in db.assignments && db.assignments[id].principal == p
    && Current(db.assignments[id].deletedAt, db.assignments[id].notAfter, now)
    && db.assignments[id].pack in db.packs && db.packs[db.assignments[id].pack].deletedAt.None?
  }

  function PackOf(db: Db, id: string): seq<string>
    requires id in db.assignments && db.assignments[id].pack in db.packs
  {
    db.packs[db.assignments[id].pack].capabilities
  }

  function ResolvedGrants(db: Db, p: string, now: int): set<Held> {
    if !Active(db, p) then {}
    else
      (set id | id in db.grants && GrantCounts(db, id, p, now) ::
         ByGrant(id, db.grants[id].capability, db.grants[id].scope))
      + (set id, k | id in db.assignments && AssignmentCounts(db, id, p, now) && 0 <= k < |PackOf(db, id)| ::
           ByPack(id, k, PackOf(db, id)[k], db.assignments[id].scope))
  }

  /** The principal's own bound, which a retired principal does not have. */
  function ResolvedBound(db: Db, p: string): Option<int> {
    if p in db.principals && db.principals[p].deletedAt.None? then db.principals[p].notAfter else None
  }

  // ------------------------------------------------------------ the counters

  function Version(db: Db, p: string): nat {
    if p in db.versions then db.versions[p] else 0
  }

  function Bumped(versions: map<string, nat>, who: set<string>): map<string, nat> {
    map p | p in versions.Keys + who ::
      (if p in versions then versions[p] else 0) + (if p in who then 1 else 0)
  }

  /** Everybody holding the pack through a live assignment, lapsed or not. */
  function Holders(assignments: map<string, Assignment>, pack: string): set<string> {
    set id | id in assignments && assignments[id].pack == pack && assignments[id].deletedAt.None? ::
      assignments[id].principal
  }

  // ------------------------------------------------------------ the disable cascade

  function EndAll(sessions: map<string, Session>, p: string, now: int, reason: EndReason): map<string, Session> {
    map id | id in sessions ::
      if sessions[id].principal == p && sessions[id].ended.None?
      then sessions[id].(ended := Some((now, reason)))
      else sessions[id]
  }

  /** Which cascade an update of a principal sets off, the stronger fact first. */
  function CascadeReason(before: Principal, after: Principal): Option<EndReason> {
    if after.deletedAt.Some? && before.deletedAt.None? then Some(PrincipalRetired)
    else if after.disabledAt.Some? && before.disabledAt.None? then Some(PrincipalDisabled)
    else None
  }

  function Cascaded(db: Db, id: string, before: Principal, after: Principal, now: int): Db {
    match CascadeReason(before, after)
    case None => db
    case Some(reason) =>
      db.(sessions := EndAll(db.sessions, id, now, reason), versions := Bumped(db.versions, {id}))
  }

  // ------------------------------------------------------------ the audit trigger

  datatype Table = CapabilityGrant | CapabilityPackAssignment

  function TableName(table: Table): string {
    match table
    case CapabilityGrant => "capability_grant"
    case CapabilityPackAssignment => "capability_pack_assignment"
  }

  /** A write is a grant when it makes a live row, a revocation when it retires one, and else nothing. */
  function ActionOf(before: Option<Option<int>>, deletedAt: Option<int>): Option<string> {
    match before
    case None => if deletedAt.Some? then None else Some("grant")
    case Some(was) => if was.Some? || deletedAt.None? then None else Some("revoke")
  }

  /** What the two tables' rows look like to the one trigger they share. */
  datatype Change = Change(table: Table, id: string, principal: string, grantedBy: string, holding: string)

  function GrantChange(id: string, g: GrantRow): Change {
    Change(CapabilityGrant, id, g.principal, g.grantedBy, g.capability)
  }

  function AssignmentChange(db: Db, id: string, a: Assignment): Change {
    Change(CapabilityPackAssignment, id, a.principal, a.grantedBy,
           if a.pack in db.packs then db.packs[a.pack].name else "unknown")
  }

  function ChangeDetails(db: Db, c: Change, ctx: Context): Details {
    [Detail(if c.table.CapabilityGrant? then "capability" else "pack", JString(c.holding)),
     Detail("source", JString(TableName(c.table)))]
    + (if ctx.actor == "" then [Detail("actor", JString("inferred"))] else [])
    + [Detail("holds", JString(if ResolvedGrants(db, c.principal, ctx.now) == {} then "none" else "some"))]
  }

  const NO_ENT_HASH := "00000000000000000000000000000000"

  /** The entry's content before it is numbered, over the state the row write left. */
  function ChangePayload(db: Db, c: Change, action: string, ctx: Context): Payload {
    Payload(ctx.moment, if ctx.actor == "" then c.grantedBy else ctx.actor, action, "grant:" + c.id,
            if ctx.entHash == "" then NO_ENT_HASH else ctx.entHash, ctx.trace, ChangeDetails(db, c, ctx))
  }

  function Recorded(sign: Signer, db: Db, c: Change, action: Option<string>, ctx: Context): Db {
    match action
    case None => db
    case Some(a) => db.(ledger := db.ledger + [NextEntry(sign, db.ledger, ChangePayload(db, c, a, ctx))])
  }

  // ------------------------------------------------------------ statements

  /** At most one live grant of a capability to a principal, and of a pack to a principal. */
  predicate GrantTaken(db: Db, id: string, g: GrantRow) {
    g.deletedAt.None? && exists k | k in db.grants ::
      && k != id && db.grants[k].deletedAt.None?
      && db.grants[k].principal == g.principal && db.grants[k].capability == g.capability
  }

  predicate AssignmentTaken(db: Db, id: string, a: Assignment) {
    a.deletedAt.None? && exists k | k in db.assignments ::
      && k != id && db.assignments[k].deletedAt.None?
      && db.assignments[k].principal == a.principal && db.assignments[k].pack == a.pack
  }

  predicate PackTaken(db: Db, id: string, pack: Pack) {
    pack.deletedAt.None? && exists k | k in db.packs ::
      k != id && db.packs[k].deletedAt.None? && db.packs[k].name == pack.name
  }

  /** The row write and the counters it moves, before the audit trigger. */
  function GrantStored(db: Db, id: string, g: GrantRow): Db {
    db.(grants := db.grants[id := g], versions := Bumped(db.versions, {g.principal}), epoch := db.epoch + 1)
  }

  function AssignmentStored(db: Db, id: string, a: Assignment): Db {
    db.(assignments := db.assignments[id := a], versions := Bumped(db.versions, {a.principal}),
        epoch := db.epoch + 1)
  }

  function GrantAction(db: Db, id: string, g: GrantRow): Option<string> {
    ActionOf(if id in db.grants then Some(db.grants[id].deletedAt) else None, g.deletedAt)
  }

  function AssignmentAction(db: Db, id: string, a: Assignment): Option<string> {
    ActionOf(if id in db.assignments then Some(db.assignments[id].deletedAt) else None, a.deletedAt)
  }

  function GrantWritten(sign: Signer, db: Db, id: string, g: GrantRow, ctx: Context): Db {
    Recorded(sign, GrantStored(db, id, g), GrantChange(id, g), GrantAction(db, id, g), ctx)
  }

  function AssignmentWritten(sign: Signer, db: Db, id: string, a: Assignment, ctx: Context): Db {
    var wrote := AssignmentStored(db, id, a);
    Recorded(sign, wrote, AssignmentChange(wrote, id, a), AssignmentAction(db, id, a), ctx)
  }

  function PackWritten(db: Db, id: string, pack: Pack): Db {
    db.(packs := db.packs[id := pack], versions := Bumped(db.versions, Holders(db.assignments, id)), epoch := db.epoch + 1)
  }

  /** Why a statement would be refused. An update of a row that is not there changes none. */
  function RefusalOf(db: Db, s: Statement): Option<Refusal> {
    match s
    case InsertPrincipal(id, _) => if id in db.principals then Some(KeyTaken) else None
    case UpdatePrincipal(_, _) => None
    case InsertPack(id, pack) =>
      if id in db.packs then Some(KeyTaken) else if PackTaken(db, id, pack) then Some(AlreadyLive) else None
    case UpdatePack(id, pack) =>
      if id in db.packs && PackTaken(db, id, pack) then Some(AlreadyLive) else None
    case InsertGrant(id, g) =>
      if id in db.grants then Some(KeyTaken)
      else if g.principal !in db.principals then Some(NoSuchPrincipal)
      else if GrantTaken(db, id, g) then Some(AlreadyLive) else None
    case UpdateGrant(id, g) =>
      if id !in db.grants then None
      else if g.principal !in db.principals then Some(NoSuchPrincipal)
      else if GrantTaken(db, id, g) then Some(AlreadyLive) else None
    case InsertAssignment(id, a) =>
      if id in db.assignments then Some(KeyTaken)
      else if a.principal !in db.principals then Some(NoSuchPrincipal)
      else if a.pack !in db.packs then Some(NoSuchPack)
      else if AssignmentTaken(db, id, a) then Some(AlreadyLive) else None
    case UpdateAssignment(id, a) =>
      if id !in db.assignments then None
      else if a.principal !in db.principals then Some(NoSuchPrincipal)
      else if a.pack !in db.packs then Some(NoSuchPack)
      else if AssignmentTaken(db, id, a) then Some(AlreadyLive) else None
    case OpenSession(id, session) =>
      if id in db.sessions then Some(KeyTaken)
      else if session.principal !in db.principals then Some(NoSuchPrincipal) else None
  }

  /** A statement and every trigger it fires, as one step; a refused one changes nothing. */
  function Execute(sign: Signer, db: Db, s: Statement, ctx: Context): Db {
    if RefusalOf(db, s).Some? then db
    else
      match s
      case InsertPrincipal(id, p) => db.(principals := db.principals[id := p])
      case UpdatePrincipal(id, p) =>
        if id !in db.principals then db
        else Cascaded(db.(principals := db.principals[id := p]), id, db.principals[id], p, ctx.now)
      case InsertPack(id, pack) => PackWritten(db, id, pack)
      case UpdatePack(id, pack) => if id !in db.packs then db else PackWritten(db, id, pack)
      case InsertGrant(id, g) => GrantWritten(sign, db, id, g, ctx)
      case UpdateGrant(id, g) => if id !in db.grants then db else GrantWritten(sign, db, id, g, ctx)
      case InsertAssignment(id, a) => AssignmentWritten(sign, db, id, a, ctx)
      case UpdateAssignment(id, a) => if id !in db.assignments then db else AssignmentWritten(sign, db, id, a, ctx)
      case OpenSession(id, session) => db.(sessions := db.sessions[id := session])
  }

  // ------------------------------------------------------------ which rows a statement leaves

  function GrantsAfter(db: Db, s: Statement): map<string, GrantRow> {
    if RefusalOf(db, s).Some? then db.grants
    else
      match s
      case InsertGrant(id, g) => db.grants[id := g]
      case UpdateGrant(id, g) => if id in db.grants then db.grants[id := g] else db.grants
      case _ => db.grants
  }

  function AssignmentsAfter(db: Db, s: Statement): map<string, Assignment> {
    if RefusalOf(db, s).Some? then db.assignments
    else
      match s
      case InsertAssignment(id, a) => db.assignments[id := a]
      case UpdateAssignment(id, a) => if id in db.assignments then db.assignments[id := a] else db.assignments
      case _ => db.assignments
  }

  lemma RecordedWritesOnlyTheLedger(sign: Signer, db: Db, c: Change, action: Option<string>, ctx: Context)
    ensures Recorded(sign, db, c, action, ctx) == db.(ledger := Recorded(sign, db, c, action, ctx).ledger)
  {
  }

  ghost predicate WritesThoseRows(db: Db, db': Db, s: Statement) {
    db'.grants == GrantsAfter(db, s) && db'.assignments == AssignmentsAfter(db, s)
  }

  lemma GrantStatementRows(sign: Signer, db: Db, s: Statement, ctx: Context)
    requires s.InsertGrant? || s.UpdateGrant?
    ensures WritesThoseRows(db, Execute(sign, db, s, ctx), s)
  {
    RecordedWritesOnlyTheLedger(sign, GrantStored(db, s.id, s.grant), GrantChange(s.id, s.grant),
                                GrantAction(db, s.id, s.grant), ctx);
  }

  lemma AssignmentStatementRows(sign: Signer, db: Db, s: Statement, ctx: Context)
    requires s.InsertAssignment? || s.UpdateAssignment?
    ensures WritesThoseRows(db, Execute(sign, db, s, ctx), s)
  {
    var wrote := AssignmentStored(db, s.id, s.assignment);
    RecordedWritesOnlyTheLedger(sign, wrote, AssignmentChange(wrote, s.id, s.assignment),
                                AssignmentAction(db, s.id, s.assignment), ctx);
  }

  lemma OtherStatementRows(sign: Signer, db: Db, s: Statement, ctx: Context)
    requires !s.InsertGrant? && !s.UpdateGrant? && !s.InsertAssignment? && !s.UpdateAssignment?
    ensures WritesThoseRows(db, Execute(sign, db, s, ctx), s)
  {
  }

  /** A statement writes the row it names and no other row of the two granting tables. */
  lemma ExecutedRows(sign: Signer, db: Db, s: Statement, ctx: Context)
    ensures WritesThoseRows(db, Execute(sign, db, s, ctx), s)
  {
    if s.InsertGrant? || s.UpdateGrant? {
      GrantStatementRows(sign, db, s, ctx);
    } else if s.InsertAssignment? || s.UpdateAssignment? {
      AssignmentStatementRows(sign, db, s, ctx);
    } else {
      OtherStatementRows(sign, db, s, ctx);
    }
  }

  // ------------------------------------------------------------ the same, in place

  class Gate {
    const sign: Signer
    var principals: map<string, Principal>
    var grants: map<string, GrantRow>
    var packs: map<string, Pack>
    var assignments: map<string, Assignment>
    var sessions: map<string, Session>
    var versions: map<string, nat>
    var epoch: nat
    var ledger: seq<Entry>

    constructor (sign: Signer)
      ensures this.sign == sign
      ensures State() == Db(map[], map[], map[], map[], map[], map[], 0, [])
    {
      this.sign := sign;
      principals, grants, packs, assignments, sessions, versions := map[], map[], map[], map[], map[], map[];
      epoch, ledger := 0, [];
    }

    function State(): Db
      reads this
    {
      Db(principals, grants, packs, assignments, sessions, versions, epoch, ledger)
    }

    /** One MERGE into the version table: created at one, or one more than it was. */
    method MergeVersion(p: string)
      modifies this`versions
      ensures versions == Bumped(old(versions), {p})
    {
      if p in versions {
        versions := versions[p := versions[p] + 1];
      } else {
        versions := versions[p := 1];
      }
    }

    /** `gate.bump_grants_version`. */
    method BumpGrantsVersion(p: string)
      modifies this`versions, this`epoch
      ensures versions == Bumped(old(versions), {p}) && epoch == old(epoch) + 1
    {
      MergeVersion(p);
      epoch := epoch + 1;
    }

    /** `gate.bump_grants_version_for_pack`: one more for each distinct live holder. */
    method BumpGrantsVersionForPack(pack: string)
      modifies this`versions, this`epoch
      ensures versions == Bumped(old(versions), Holders(assignments, pack)) && epoch == old(epoch) + 1
    {
      var holders := Holders(assignments, pack);
      var left := holders;
      while left != {}
        invariant left <= holders && epoch == old(epoch)
        invariant versions == Bumped(old(versions), holders - left)
        decreases left
      {
        var p :| p in left;
        ghost var done := holders - left;
        MergeVersion(p);
        left := left - {p};
        assert holders - left == done + {p};
      }
      assert holders - left == holders;
      epoch := epoch + 1;
    }

    /** The cascade's UPDATE of every live session of one principal. */
    method EndSessions(p: string, now: int, reason: EndReason)
      modifies this`sessions
      ensures sessions == EndAll(old(sessions), p, now, reason)
    {
      var left := sessions.Keys;
      while left != {}
        invariant sessions.Keys == old(sessions).Keys
        invariant left <= sessions.Keys
        invariant forall id | id in left :: sessions[id] == old(sessions)[id]
        invariant forall id | id in sessions && id !in left ::
            sessions[id] == EndAll(old(sessions), p, now, reason)[id]
        decreases left
      {
        var id :| id in left;
        if sessions[id].principal == p && sessions[id].ended.None? {
          sessions := sessions[id := sessions[id].(ended := Some((now, reason)))];
        }
        left := left - {id};
      }
    }

    /** `auth.cascade_principal_state`. */
    method CascadePrincipalState(id: string, before: Principal, after: Principal, now: int)
      modifies this`sessions, this`versions
      ensures State() == Cascaded(old(State()), id, before, after, now)
    {
      if after.deletedAt.Some? && before.deletedAt.None? {
        EndSessions(id, now, PrincipalRetired);
      } else if after.disabledAt.Some? && before.disabledAt.None? {
        EndSessions(id, now, PrincipalDisabled);
      } else {
        return;
      }
      MergeVersion(id);
    }

    /** `gate.record_entitlement_change`. */
    method RecordEntitlementChange(c: Change, action: Option<string>, ctx: Context)
      modifies this`ledger
      ensures State() == Recorded(sign, old(State()), c, action, ctx)
    {
      if action.None? {
        return;
      }
      var payload := ChangePayload(State(), c, action.value, ctx);
      var number, parent := NextSeq(ledger), LastHash(ledger);
      ledger := ledger + [Signed(sign, Link(payload, number, parent))];
    }

    method WriteGrant(id: string, g: GrantRow, ctx: Context)
      modifies this
      ensures State() == GrantWritten(sign, old(State()), id, g, ctx)
    {
      var action := GrantAction(State(), id, g);
      grants := grants[id := g];
      BumpGrantsVersion(g.principal);
      RecordEntitlementChange(GrantChange(id, g), action, ctx);
    }

    method WriteAssignment(id: string, a: Assignment, ctx: Context)
      modifies this
      ensures State() == AssignmentWritten(sign, old(State()), id, a, ctx)
    {
      var action := AssignmentAction(State(), id, a);
      assignments := assignments[id := a];
      BumpGrantsVersion(a.principal);
      RecordEntitlementChange(AssignmentChange(State(), id, a), action, ctx);
    }

    /** Run one statement, with its constraints first and its row triggers after it. */
    method Run(s: Statement, ctx: Context) returns (refusal: Option<Refusal>)
      modifies this
      ensures refusal == RefusalOf(old(State()), s)
      ensures State() == Execute(sign, old(State()), s, ctx)
    {
      refusal := RefusalOf(State(), s);
      if refusal.Some? {
        return;
      }
      match s {
        case InsertPrincipal(id, p) => principals := principals[id := p];
        case UpdatePrincipal(id, p) =>
          if id in principals {
            var before := principals[id];
            principals := principals[id := p];
            CascadePrincipalState(id, before, p, ctx.now);
          }
        case InsertPack(id, pack) =>
          packs := packs[id := pack];
          BumpGrantsVersionForPack(id);
        case UpdatePack(id, pack) =>
          if id in packs {
            packs := packs[id := pack];
            BumpGrantsVersionForPack(id);
          }
        case InsertGrant(id, g) => WriteGrant(id, g, ctx);
        case UpdateGrant(id, g) =>
          if id in grants {
            WriteGrant(id, g, ctx);
          }
        case InsertAssignment(id, a) => WriteAssignment(id, a, ctx);
        case UpdateAssignment(id, a) =>
          if id in assignments {
            WriteAssignment(id, a, ctx);
          }
        case OpenSession(id, session) => sessions := sessions[id := session];
      }
    }
  }
}
