/**
 What the ledger says about the permission tables: read from its first entry to its last, it
 names the live rows, for exactly as long as nothing retired is brought back.
 */
module Replay {
  import opened Wrappers
  import opened Text
  import opened AuditHash
  import opened Ledger
  import opened Entitlements
  import opened Coherence

  /** An entry recording this action on this row. */
  predicate Says(e: Entry, table: Table, id: string, action: string) {
    && e.content.action == action
    && e.content.subject == "grant:" + id
    && Detail("source", JString(TableName(table))) in e.content.details
  }

  predicate Said(ledger: seq<Entry>, table: Table, id: string, action: string) {
    exists e | e in ledger :: Says(e, table, id, action)
  }

  predicate Exists(db: Db, table: Table, id: string) {
    match table
    case CapabilityGrant => id in db.grants
    case CapabilityPackAssignment => id in db.assignments
  }

  predicate Live(db: Db, table: Table, id: string) {
    match table
    case CapabilityGrant => id in db.grants && db.grants[id].deletedAt.None?
    case CapabilityPackAssignment => id in db.assignments && db.assignments[id].deletedAt.None?
  }

  /** The rows the ledger has granted and not revoked. */
  predicate Granted(ledger: seq<Entry>, table: Table, id: string) {
    Said(ledger, table, id, "grant") && !Said(ledger, table, id, "revoke")
  }

  ghost predicate ReplaysTrue(db: Db) {
    forall table, id :: Granted(db.ledger, table, id) <==> Live(db, table, id)
  }

  /** The ledger speaks only of rows there are; rows are never removed. */
  ghost predicate SpeaksOfRows(db: Db) {
    forall table, id | Said(db.ledger, table, id, "grant") || Said(db.ledger, table, id, "revoke") ::
      Exists(db, table, id)
  }

  /** An accepted update that brings a retired row back. */
  predicate BringsBack(db: Db, s: Statement) {
    && RefusalOf(db, s).None?
    && match s
       case UpdateGrant(id, g) => id in db.grants && db.grants[id].deletedAt.Some? && g.deletedAt.None?
       case UpdateAssignment(id, a) =>
         id in db.assignments && db.assignments[id].deletedAt.Some? && a.deletedAt.None?
       case _ => false
  }

  /** The row a statement writes, in one of the two audited tables. */
  function Target(s: Statement): Option<(Table, string)> {
    match s
    case InsertGrant(id, _) => Some((CapabilityGrant, id))
    case UpdateGrant(id, _) => Some((CapabilityGrant, id))
    case InsertAssignment(id, _) => Some((CapabilityPackAssignment, id))
    case UpdateAssignment(id, _) => Some((CapabilityPackAssignment, id))
    case _ => None
  }

  /** What the trigger ought to write after a statement: the transition it made, if any. */
  function Transition(db: Db, db': Db, s: Statement): Option<string> {
    match Target(s)
    case None => None
    case Some((table, id)) =>
      if !Exists(db, table, id) && Live(db', table, id) then Some("grant")
      else if Live(db, table, id) && !Live(db', table, id) then Some("revoke")
      else None
  }

  // ------------------------------------------------------------ one entry

  lemma SubjectNamesOneRow(id: string, other: string)
    ensures "grant:" + id == "grant:" + other <==> id == other
  {
    assert ("grant:" + id)[6..] == id && ("grant:" + other)[6..] == other;
  }

  lemma TableNamesDiffer(table: Table, other: Table)
    ensures TableName(table) == TableName(other) <==> table == other
  {
    assert |TableName(CapabilityGrant)| != |TableName(CapabilityPackAssignment)|;
  }

  lemma PayloadSays(db: Db, c: Change, action: string, ctx: Context, e: Entry, table: Table, id: string, asked: string)
    requires e.content.action == action && e.content.subject == "grant:" + c.id
    requires e.content.details == ChangeDetails(db, c, ctx)
    ensures Says(e, table, id, asked) <==> table == c.table && id == c.id && asked == action
  {
    SubjectNamesOneRow(c.id, id);
    TableNamesDiffer(c.table, table);
    var details := ChangeDetails(db, c, ctx);
    assert details[1] == Detail("source", JString(TableName(c.table)));
    assert Detail("source", JString(TableName(table))) in details <==> table == c.table;
  }

  lemma SaidSnoc(ledger: seq<Entry>, e: Entry, table: Table, id: string, action: string)
    ensures Said(ledger + [e], table, id, action) <==> Said(ledger, table, id, action) || Says(e, table, id, action)
  {
    if Said(ledger, table, id, action) {
      var f :| f in ledger && Says(f, table, id, action);
      assert f in ledger + [e];
    }
    assert e in ledger + [e];
  }

  /** The one entry a recorded change leaves, and what it says. */
  lemma RecordedSays(sign: Signer, db: Db, c: Change, action: Option<string>, ctx: Context,
                     table: Table, id: string, asked: string)
    ensures var db' := Recorded(sign, db, c, action, ctx);
            && |db'.ledger| == |db.ledger| + (if action.Some? then 1 else 0)
            && (Said(db'.ledger, table, id, asked) <==>
                  || Said(db.ledger, table, id, asked)
                  || (action == Some(asked) && table == c.table && id == c.id))
  {
    if action.Some? {
      var e := NextEntry(sign, db.ledger, ChangePayload(db, c, action.value, ctx));
      PayloadSays(db, c, action.value, ctx, e, table, id, asked);
      SaidSnoc(db.ledger, e, table, id, asked);
    }
  }

  /** Which action the trigger takes on a write is which transition the write made. */
  lemma GrantActionIsTransition(db: Db, db': Db, s: Statement)
    requires (s.InsertGrant? || (s.UpdateGrant? && s.id in db.grants)) && RefusalOf(db, s).None?
    requires db'.grants == db.grants[s.id := s.grant]
    ensures GrantAction(db, s.id, s.grant) == Transition(db, db', s)
  {
    assert s.InsertGrant? ==> s.id !in db.grants;
  }

  lemma AssignmentActionIsTransition(db: Db, db': Db, s: Statement)
    requires (s.InsertAssignment? || (s.UpdateAssignment? && s.id in db.assignments)) && RefusalOf(db, s).None?
    requires db'.assignments == db.assignments[s.id := s.assignment]
    ensures AssignmentAction(db, s.id, s.assignment) == Transition(db, db', s)
  {
    assert s.InsertAssignment? ==> s.id !in db.assignments;
  }

  /** Whether a statement is accepted and puts a row version in one of the two audited tables. */
  predicate Audited(db: Db, s: Statement) {
    && RefusalOf(db, s).None?
    && (s.InsertGrant? || s.InsertAssignment?
        || (s.UpdateGrant? && s.id in db.grants) || (s.UpdateAssignment? && s.id in db.assignments))
  }

  /** Any other statement leaves no entry and makes no transition. */
  lemma UnauditedSaysNothing(sign: Signer, db: Db, s: Statement, ctx: Context)
    requires !Audited(db, s)
    ensures Execute(sign, db, s, ctx).ledger == db.ledger
    ensures Transition(db, Execute(sign, db, s, ctx), s).None?
  {
    ExecutedRows(sign, db, s, ctx);
  }

  /**
   Each transition leaves exactly one entry, naming it and the row that made it, and nothing else
   leaves any: not a refused statement, an edit in place, or a retired row brought back.
   */
  lemma EachTransitionLeavesOneEntry(sign: Signer, db: Db, s: Statement, ctx: Context,
                                     table: Table, id: string, asked: string)
    ensures OneEntryMore(db, Execute(sign, db, s, ctx), s, table, id, asked)
  {
    if Audited(db, s) {
      ExecutedRows(sign, db, s, ctx);
      if s.InsertGrant? || s.UpdateGrant? {
        GrantActionIsTransition(db, Execute(sign, db, s, ctx), s);
        RecordedSays(sign, GrantStored(db, s.id, s.grant), GrantChange(s.id, s.grant),
                     GrantAction(db, s.id, s.grant), ctx, table, id, asked);
      } else {
        AssignmentActionIsTransition(db, Execute(sign, db, s, ctx), s);
        var wrote := AssignmentStored(db, s.id, s.assignment);
        RecordedSays(sign, wrote, AssignmentChange(wrote, s.id, s.assignment),
                     AssignmentAction(db, s.id, s.assignment), ctx, table, id, asked);
      }
    } else {
      UnauditedSaysNothing(sign, db, s, ctx);
    }
  }

  /** The ledger has one entry more if the statement made a transition, and it says which. */
  predicate OneEntryMore(db: Db, db': Db, s: Statement, table: Table, id: string, asked: string) {
    var made := Transition(db, db', s);
    && |db'.ledger| == |db.ledger| + (if made.Some? then 1 else 0)
    && (Said(db'.ledger, table, id, asked) <==>
          || Said(db.ledger, table, id, asked)
          || (made == Some(asked) && Target(s) == Some((table, id))))
  }

  // ------------------------------------------------------------ runs

  /** What a statement does to one row: no other is touched, none is removed, and what comes back is named. */
  predicate RowOutcome(db: Db, db': Db, s: Statement, table: Table, id: string) {
    && (Exists(db, table, id) ==> Exists(db', table, id))
    && (Target(s) != Some((table, id)) ==> Live(db', table, id) == Live(db, table, id))
    && (Target(s) == Some((table, id)) ==>
          (BringsBack(db, s) <==> Exists(db, table, id) && !Live(db, table, id) && Live(db', table, id)))
  }

  lemma OneRowMoves(db: Db, db': Db, s: Statement, table: Table, id: string)
    requires WritesThoseRows(db, db', s)
    ensures RowOutcome(db, db', s, table, id)
  {
  }

  /** A statement's entry and its row, at once. */
  lemma StatementOutcome(sign: Signer, db: Db, s: Statement, ctx: Context, table: Table, id: string)
    ensures var db' := Execute(sign, db, s, ctx);
            && OneEntryMore(db, db', s, table, id, "grant") && OneEntryMore(db, db', s, table, id, "revoke")
            && RowOutcome(db, db', s, table, id)
  {
    EachTransitionLeavesOneEntry(sign, db, s, ctx, table, id, "grant");
    EachTransitionLeavesOneEntry(sign, db, s, ctx, table, id, "revoke");
    ExecutedRows(sign, db, s, ctx);
    OneRowMoves(db, Execute(sign, db, s, ctx), s, table, id);
  }

  lemma StillSpeaksOfRow(db: Db, db': Db, s: Statement, table: Table, id: string)
    requires SpeaksOfRows(db) && RowOutcome(db, db', s, table, id)
    requires OneEntryMore(db, db', s, table, id, "grant") && OneEntryMore(db, db', s, table, id, "revoke")
    ensures Said(db'.ledger, table, id, "grant") || Said(db'.ledger, table, id, "revoke") ==> Exists(db', table, id)
  {
  }

  lemma StillSpeaksOfRows(sign: Signer, db: Db, s: Statement, ctx: Context)
    requires SpeaksOfRows(db)
    ensures SpeaksOfRows(Execute(sign, db, s, ctx))
  {
    var db' := Execute(sign, db, s, ctx);
    forall table, id | Said(db'.ledger, table, id, "grant") || Said(db'.ledger, table, id, "revoke")
      ensures Exists(db', table, id)
    {
      StatementOutcome(sign, db, s, ctx, table, id);
      StillSpeaksOfRow(db, db', s, table, id);
    }
  }

  /** On one row, a statement keeps what the ledger says true, unless it brings the row back. */
  lemma RowReplays(db: Db, db': Db, s: Statement, table: Table, id: string)
    requires SpeaksOfRows(db) && (Granted(db.ledger, table, id) <==> Live(db, table, id))
    requires RowOutcome(db, db', s, table, id)
    requires OneEntryMore(db, db', s, table, id, "grant") && OneEntryMore(db, db', s, table, id, "revoke")
    ensures (Granted(db'.ledger, table, id) <==> Live(db', table, id)) <==>
            !(BringsBack(db, s) && Target(s) == Some((table, id)))
  {
  }

  /** A ledger that tells the truth goes on telling it after a statement exactly when nothing came back. */
  lemma OnlyBringingBackBreaksTheReplay(sign: Signer, db: Db, s: Statement, ctx: Context)
    requires SpeaksOfRows(db) && ReplaysTrue(db)
    ensures ReplaysTrue(Execute(sign, db, s, ctx)) <==> !BringsBack(db, s)
  {
    var db' := Execute(sign, db, s, ctx);
    forall table, id
      ensures (Granted(db'.ledger, table, id) <==> Live(db', table, id)) <==>
              !(BringsBack(db, s) && Target(s) == Some((table, id)))
    {
      StatementOutcome(sign, db, s, ctx, table, id);
      RowReplays(db, db', s, table, id);
    }
    if BringsBack(db, s) {
      var target := Target(s).value;
      assert !(Granted(db'.ledger, target.0, target.1) <==> Live(db', target.0, target.1));
    }
  }

  const EMPTY := Db(map[], map[], map[], map[], map[], map[], 0, [])

  /** Step i of the run brings this row back. */
  predicate BringsBackAt(sign: Signer, run: seq<(Statement, Context)>, i: nat, table: Table, id: string)
    requires i < |run|
  {
    BringsBack(After(sign, EMPTY, run[..i]), run[i].0) && Target(run[i].0) == Some((table, id))
  }

  ghost predicate EverBroughtBack(sign: Signer, run: seq<(Statement, Context)>, table: Table, id: string) {
    exists i: nat | i < |run| :: BringsBackAt(sign, run, i, table, id)
  }

  lemma BringsBackEarlier(sign: Signer, run: seq<(Statement, Context)>, i: nat, table: Table, id: string)
    requires i < |run| - 1
    ensures BringsBackAt(sign, run[..|run| - 1], i, table, id) == BringsBackAt(sign, run, i, table, id)
  {
    assert run[..|run| - 1][..i] == run[..i];
  }

  lemma EverBroughtBackSnoc(sign: Signer, run: seq<(Statement, Context)>, table: Table, id: string)
    requires run != []
    ensures EverBroughtBack(sign, run, table, id) <==>
            EverBroughtBack(sign, run[..|run| - 1], table, id) || BringsBackAt(sign, run, |run| - 1, table, id)
  {
    if EverBroughtBack(sign, run, table, id) {
      var i: nat :| i < |run| && BringsBackAt(sign, run, i, table, id);
      if i < |run| - 1 {
        BringsBackEarlier(sign, run, i, table, id);
      }
    }
    if EverBroughtBack(sign, run[..|run| - 1], table, id) {
      var i: nat :| i < |run| - 1 && BringsBackAt(sign, run[..|run| - 1], i, table, id);
      BringsBackEarlier(sign, run, i, table, id);
    }
  }

  lemma {:induction false} RunSpeaksOfRows(sign: Signer, run: seq<(Statement, Context)>)
    ensures SpeaksOfRows(After(sign, EMPTY, run))
  {
    if run != [] {
      RunSpeaksOfRows(sign, run[..|run| - 1]);
      var (s, ctx) := run[|run| - 1];
      StillSpeaksOfRows(sign, After(sign, EMPTY, run[..|run| - 1]), s, ctx);
    }
  }

  /** What the ledger says of one row after a run that has brought it back, or has not. */
  ghost predicate Told(db: Db, table: Table, id: string, back: bool) {
    && (Granted(db.ledger, table, id) <==> Live(db, table, id) && !back)
    && (back ==> Exists(db, table, id))
  }

  lemma StatementTells(db: Db, db': Db, s: Statement, table: Table, id: string, back: bool)
    requires SpeaksOfRows(db) && Told(db, table, id, back) && RowOutcome(db, db', s, table, id)
    requires OneEntryMore(db, db', s, table, id, "grant") && OneEntryMore(db, db', s, table, id, "revoke")
    ensures Told(db', table, id, back || (BringsBack(db, s) && Target(s) == Some((table, id))))
  {
  }

  /**
   Over every run whatever, a grant or a pack assignment has a `grant` entry and no `revoke` entry
   exactly when it is live and no step of the run ever brought it back.
   */
  lemma {:induction false} TheLedgerReplaysToTheTruth(sign: Signer, run: seq<(Statement, Context)>,
                                                      table: Table, id: string)
    ensures var db := After(sign, EMPTY, run);
            && (Granted(db.ledger, table, id) <==> Live(db, table, id) && !EverBroughtBack(sign, run, table, id))
            && (EverBroughtBack(sign, run, table, id) ==> Exists(db, table, id))
  {
    if run != [] {
      var before := run[..|run| - 1];
      var (s, ctx) := run[|run| - 1];
      TheLedgerReplaysToTheTruth(sign, before, table, id);
      RunSpeaksOfRows(sign, before);
      EverBroughtBackSnoc(sign, run, table, id);
      StatementOutcome(sign, After(sign, EMPTY, before), s, ctx, table, id);
      StatementTells(After(sign, EMPTY, before), After(sign, EMPTY, run), s, table, id,
                     EverBroughtBack(sign, before, table, id));
    }
  }

  /** A row that was brought back and stands. */
  ghost predicate BackAndLive(sign: Signer, run: seq<(Statement, Context)>, table: Table, id: string) {
    Live(After(sign, EMPTY, run), table, id) && EverBroughtBack(sign, run, table, id)
  }

  /**
   So after a run the ledger replays to the live rows exactly when no row that was ever brought back
   is live: such a row is missing from it for as long as it is live, and retiring it again mends it.
   */
  lemma TheReplayIsTrueIff(sign: Signer, run: seq<(Statement, Context)>)
    ensures ReplaysTrue(After(sign, EMPTY, run)) <==> forall table, id :: !BackAndLive(sign, run, table, id)
  {
    var db := After(sign, EMPTY, run);
    forall table, id
      ensures (Granted(db.ledger, table, id) <==> Live(db, table, id)) <==> !BackAndLive(sign, run, table, id)
    {
      TheLedgerReplaysToTheTruth(sign, run, table, id);
    }
  }

  // ------------------------------------------------------------ a run that brings a row back

  const ROW := GrantRow("p", "read:client", {}, "p", None, None)

  const GONE := GrantRow("p", "read:client", {}, "p", None, Some(1))

  lemma AfterSnoc(sign: Signer, db: Db, run: seq<(Statement, Context)>, s: Statement, ctx: Context)
    ensures After(sign, db, run + [(s, ctx)]) == Execute(sign, After(sign, db, run), s, ctx)
  {
    assert (run + [(s, ctx)])[..|run|] == run;
  }

  /** A database with that one principal in it, at most that one grant, and no assignment. */
  predicate OneGrant(db: Db, g: Option<GrantRow>) {
    && "p" in db.principals && db.assignments == map[]
    && db.grants == match g { case None => map[] case Some(row) => map["g" := row] }
  }

  lemma GrantPut(sign: Signer, run: seq<(Statement, Context)>, was: Option<GrantRow>, s: Statement, ctx: Context)
    requires OneGrant(After(sign, EMPTY, run), was)
    requires if was.None? then s == InsertGrant("g", ROW) else s == UpdateGrant("g", ROW) || s == UpdateGrant("g", GONE)
    ensures RefusalOf(After(sign, EMPTY, run), s).None?
    ensures OneGrant(After(sign, EMPTY, run + [(s, ctx)]), Some(s.grant))
  {
    var db := After(sign, EMPTY, run);
    AfterSnoc(sign, EMPTY, run, s, ctx);
    ExecutedRows(sign, db, s, ctx);
    RecordedWritesOnlyTheLedger(sign, GrantStored(db, s.id, s.grant), GrantChange(s.id, s.grant),
                                GrantAction(db, s.id, s.grant), ctx);
  }

  lemma SomebodyPut(sign: Signer, ctx: Context)
    ensures OneGrant(After(sign, EMPTY, [] + [(InsertPrincipal("p", Principal(None, None, None)), ctx)]), None)
  {
    AfterSnoc(sign, EMPTY, [], InsertPrincipal("p", Principal(None, None, None)), ctx);
  }

  /** A run from nothing that grants and retires: somebody, a grant to them, and its retirement. */
  lemma ARetiredGrantIsReached(sign: Signer, ctx: Context) returns (run: seq<(Statement, Context)>)
    ensures OneGrant(After(sign, EMPTY, run), Some(GONE))
  {
    SomebodyPut(sign, ctx);
    run := [] + [(InsertPrincipal("p", Principal(None, None, None)), ctx)];
    run := ThenGrantAndRetire(sign, run, ctx);
  }

  lemma ThenGrantAndRetire(sign: Signer, run: seq<(Statement, Context)>, ctx: Context)
    returns (more: seq<(Statement, Context)>)
    requires OneGrant(After(sign, EMPTY, run), None)
    ensures OneGrant(After(sign, EMPTY, more), Some(GONE))
  {
    GrantPut(sign, run, None, InsertGrant("g", ROW), ctx);
    more := run + [(InsertGrant("g", ROW), ctx)];
    GrantPut(sign, more, Some(ROW), UpdateGrant("g", GONE), ctx);
    more := more + [(UpdateGrant("g", GONE), ctx)];
  }

  /** After any run, a statement that brings a row back leaves a ledger that does not replay. */
  lemma BringingBackLosesTheReplay(sign: Signer, run: seq<(Statement, Context)>, s: Statement, ctx: Context)
    requires BringsBack(After(sign, EMPTY, run), s)
    ensures !ReplaysTrue(After(sign, EMPTY, run + [(s, ctx)]))
  {
    var more := run + [(s, ctx)];
    var (table, id) := Target(s).value;
    assert more[..|run|] == run && more[|run|] == (s, ctx);
    assert BringsBackAt(sign, more, |run|, table, id);
    AfterSnoc(sign, EMPTY, run, s, ctx);
    ExecutedRows(sign, After(sign, EMPTY, run), s, ctx);
    OneRowMoves(After(sign, EMPTY, run), After(sign, EMPTY, more), s, table, id);
    assert BackAndLive(sign, more, table, id);
    TheReplayIsTrueIff(sign, more);
  }

  /** Where no row is live the ledger replays, whatever was brought back before. */
  lemma NothingLiveReplays(sign: Signer, run: seq<(Statement, Context)>)
    requires forall table, id :: !Live(After(sign, EMPTY, run), table, id)
    ensures ReplaysTrue(After(sign, EMPTY, run))
  {
    TheReplayIsTrueIff(sign, run);
  }

  lemma AllGone(db: Db)
    requires OneGrant(db, Some(GONE))
    ensures forall table, id :: !Live(db, table, id)
  {
  }

  /** A run from nothing brings a row back, and the ledger does not replay; retiring it again, it does. */
  lemma ReplayLostAndMended(sign: Signer, ctx: Context) returns (run: seq<(Statement, Context)>)
    ensures var back := run + [(UpdateGrant("g", ROW), ctx)];
            && BringsBack(After(sign, EMPTY, run), UpdateGrant("g", ROW))
            && !ReplaysTrue(After(sign, EMPTY, back))
            && ReplaysTrue(After(sign, EMPTY, back + [(UpdateGrant("g", GONE), ctx)]))
  {
    run := ARetiredGrantIsReached(sign, ctx);
    GrantPut(sign, run, Some(GONE), UpdateGrant("g", ROW), ctx);
    BringingBackLosesTheReplay(sign, run, UpdateGrant("g", ROW), ctx);
    var back := run + [(UpdateGrant("g", ROW), ctx)];
    GrantPut(sign, back, Some(ROW), UpdateGrant("g", GONE), ctx);
    AllGone(After(sign, EMPTY, back + [(UpdateGrant("g", GONE), ctx)]));
    NothingLiveReplays(sign, back + [(UpdateGrant("g", GONE), ctx)]);
  }

  /** Over every run whatever, the ledger the triggers write is one signed chain from the genesis digest. */
  lemma {:induction false} EveryRunWritesAChain(sign: Signer, run: seq<(Statement, Context)>)
    ensures Chain(sign, After(sign, EMPTY, run).ledger)
    ensures Verifies(sign, After(sign, EMPTY, run).ledger, GENESIS)
  {
    if run != [] {
      EveryRunWritesAChain(sign, run[..|run| - 1]);
      var (s, ctx) := run[|run| - 1];
      StatementExtendsTheChain(sign, After(sign, EMPTY, run[..|run| - 1]), s, ctx);
    }
    ChainsAreWhatVerifies(sign, After(sign, EMPTY, run).ledger);
  }

  lemma StatementExtendsTheChain(sign: Signer, db: Db, s: Statement, ctx: Context)
    requires Chain(sign, db.ledger)
    ensures Chain(sign, Execute(sign, db, s, ctx).ledger)
  {
    if Audited(db, s) {
      if s.InsertGrant? || s.UpdateGrant? {
        RecordedExtendsTheChain(sign, GrantStored(db, s.id, s.grant), GrantChange(s.id, s.grant),
                                GrantAction(db, s.id, s.grant), ctx);
      } else {
        var wrote := AssignmentStored(db, s.id, s.assignment);
        RecordedExtendsTheChain(sign, wrote, AssignmentChange(wrote, s.id, s.assignment),
                                AssignmentAction(db, s.id, s.assignment), ctx);
      }
    } else {
      UnauditedSaysNothing(sign, db, s, ctx);
    }
  }

  lemma RecordedExtendsTheChain(sign: Signer, db: Db, c: Change, action: Option<string>, ctx: Context)
    requires Chain(sign, db.ledger)
    ensures Chain(sign, Recorded(sign, db, c, action, ctx).ledger)
  {
    if action.Some? {
      ChainGrows(sign, db.ledger, ChangePayload(db, c, action.value, ctx));
    }
  }

  // ------------------------------------------------------------ what an entry says

  /** Whose the entry is, of which row, and in what transaction. */
  predicate SaysWhose(e: Entry, ctx: Context, grantedBy: string, action: string, id: string) {
    && e.content.at == ctx.moment && e.content.trace == ctx.trace
    && (ctx.actor != "" ==> e.content.actor == ctx.actor)
    && (ctx.actor == "" ==> e.content.actor == grantedBy)
    && e.content.action == action && e.content.subject == "grant:" + id
    && (ctx.entHash != "" ==> e.content.entHash == ctx.entHash)
    && (ctx.entHash == "" ==> e.content.entHash == "00000000000000000000000000000000")
  }

  /** What was granted or revoked, in which table, whether the actor was supplied, and what is still held. */
  ghost predicate SaysWhat(e: Entry, ctx: Context, what: Detail, source: string, holds: string) {
    forall d :: d in e.content.details <==>
      || d == what || d == Detail("source", JString(source)) || d == Detail("holds", JString(holds))
      || (ctx.actor == "" && d == Detail("actor", JString("inferred")))
  }

  lemma RecordedEntry(sign: Signer, db: Db, c: Change, action: string, ctx: Context)
    ensures var rows := Recorded(sign, db, c, Some(action), ctx).ledger;
            && |rows| == |db.ledger| + 1 && rows[..|db.ledger|] == db.ledger
            && SaysWhose(rows[|db.ledger|], ctx, c.grantedBy, action, c.id)
            && rows[|db.ledger|].content.details == ChangeDetails(db, c, ctx)
  {
  }

  lemma DetailsOfChange(db: Db, c: Change, ctx: Context, d: Detail)
    ensures d in ChangeDetails(db, c, ctx) <==>
            || d == Detail(if c.table.CapabilityGrant? then "capability" else "pack", JString(c.holding))
            || d == Detail("source", JString(TableName(c.table)))
            || (ctx.actor == "" && d == Detail("actor", JString("inferred")))
            || d == Detail("holds", JString(if ResolvedGrants(db, c.principal, ctx.now) == {} then "none" else "some"))
  {
  }

  /** A state's ledger after a row was written in one of the two tables, and who it is about. */
  ghost predicate EntryAdded(db: Db, db': Db, ctx: Context, p: string, grantedBy: string, action: string, id: string,
                             what: Detail, source: string)
  {
    && |db'.ledger| == |db.ledger| + 1 && db'.ledger[..|db.ledger|] == db.ledger
    && SaysWhose(db'.ledger[|db.ledger|], ctx, grantedBy, action, id)
    && SaysWhat(db'.ledger[|db.ledger|], ctx, what, source,
                if ResolvedGrants(db', p, ctx.now) == {} then "none" else "some")
  }

  lemma RecordedAdds(sign: Signer, db: Db, wrote: Db, c: Change, action: string, ctx: Context)
    requires wrote.ledger == db.ledger
    ensures EntryAdded(db, Recorded(sign, wrote, c, Some(action), ctx), ctx, c.principal, c.grantedBy, action, c.id,
                       Detail(if c.table.CapabilityGrant? then "capability" else "pack", JString(c.holding)),
                       TableName(c.table))
  {
    var db' := Recorded(sign, wrote, c, Some(action), ctx);
    RecordedEntry(sign, wrote, c, action, ctx);
    SameRowsResolveAlike(wrote, db', c.principal, ctx.now);
    forall d
      ensures d in db'.ledger[|db.ledger|].content.details <==>
              || d == Detail(if c.table.CapabilityGrant? then "capability" else "pack", JString(c.holding))
              || d == Detail("source", JString(TableName(c.table)))
              || d == Detail("holds", JString(if ResolvedGrants(db', c.principal, ctx.now) == {} then "none" else "some"))
              || (ctx.actor == "" && d == Detail("actor", JString("inferred")))
    {
      DetailsOfChange(wrote, c, ctx, d);
    }
  }

  /** The entry of a grant made or retired: by whom, of what capability, and what its principal is left with. */
  lemma AGrantsEntry(sign: Signer, db: Db, s: Statement, ctx: Context, action: string)
    requires (s.InsertGrant? || s.UpdateGrant?) && Transition(db, Execute(sign, db, s, ctx), s) == Some(action)
    ensures EntryAdded(db, Execute(sign, db, s, ctx), ctx, s.grant.principal, s.grant.grantedBy, action, s.id,
                       Detail("capability", JString(s.grant.capability)), "capability_grant")
  {
    if Audited(db, s) {
      ExecutedRows(sign, db, s, ctx);
      GrantActionIsTransition(db, Execute(sign, db, s, ctx), s);
      RecordedAdds(sign, db, GrantStored(db, s.id, s.grant), GrantChange(s.id, s.grant), action, ctx);
    } else {
      UnauditedSaysNothing(sign, db, s, ctx);
    }
  }

  /** And of a pack assigned or taken back, with the pack's name. */
  lemma AnAssignmentsEntry(sign: Signer, db: Db, s: Statement, ctx: Context, action: string)
    requires (s.InsertAssignment? || s.UpdateAssignment?) && Transition(db, Execute(sign, db, s, ctx), s) == Some(action)
    ensures s.assignment.pack in db.packs
    ensures EntryAdded(db, Execute(sign, db, s, ctx), ctx, s.assignment.principal, s.assignment.grantedBy, action, s.id,
                       Detail("pack", JString(db.packs[s.assignment.pack].name)), "capability_pack_assignment")
  {
    if Audited(db, s) {
      ExecutedRows(sign, db, s, ctx);
      AssignmentActionIsTransition(db, Execute(sign, db, s, ctx), s);
      var wrote := AssignmentStored(db, s.id, s.assignment);
      RecordedAdds(sign, db, wrote, AssignmentChange(wrote, s.id, s.assignment), action, ctx);
    } else {
      UnauditedSaysNothing(sign, db, s, ctx);
    }
  }

  lemma DetailsSayHolds(db: Db, c: Change, ctx: Context)
    ensures Detail("holds", JString("none")) in ChangeDetails(db, c, ctx) <==>
            ResolvedGrants(db, c.principal, ctx.now) == {}
  {
    var details := ChangeDetails(db, c, ctx);
    assert details[|details| - 1] ==
           Detail("holds", JString(if ResolvedGrants(db, c.principal, ctx.now) == {} then "none" else "some"));
    assert forall i | 0 <= i < |details| - 1 :: details[i].key != "holds";
  }

  lemma RecordedHolds(sign: Signer, db: Db, c: Change, action: Option<string>, ctx: Context)
    requires action.Some?
    ensures var db' := Recorded(sign, db, c, action, ctx);
            && db'.ledger != []
            && (Detail("holds", JString("none")) in db'.ledger[|db'.ledger| - 1].content.details <==>
                  ResolvedGrants(db', c.principal, ctx.now) == {})
  {
    DetailsSayHolds(db, c, ctx);
    var db' := Recorded(sign, db, c, action, ctx);
    assert db'.ledger[|db'.ledger| - 1] == NextEntry(sign, db.ledger, ChangePayload(db, c, action.value, ctx));
    SameRowsResolveAlike(db, db', c.principal, ctx.now);
  }

  lemma SameRowsResolveAlike(db: Db, db': Db, p: string, now: int)
    requires db' == db.(ledger := db'.ledger)
    ensures ResolvedGrants(db', p, now) == ResolvedGrants(db, p, now)
  {
    if Active(db, p) {
      SameRowsSameGrants(db, db', p, now);
    }
  }

  /** Whose holding a statement changes. */
  function Whose(s: Statement): string {
    match s
    case InsertGrant(_, g) => g.principal
    case UpdateGrant(_, g) => g.principal
    case InsertAssignment(_, a) => a.principal
    case UpdateAssignment(_, a) => a.principal
    case _ => ""
  }

  /** What an entry says the person holds is what the resolver returns after the write it records. */
  lemma HoldsNoneMeansResolvesNothing(sign: Signer, db: Db, s: Statement, ctx: Context)
    requires Transition(db, Execute(sign, db, s, ctx), s).Some?
    ensures var db' := Execute(sign, db, s, ctx);
            && db'.ledger != []
            && (Detail("holds", JString("none")) in db'.ledger[|db'.ledger| - 1].content.details <==>
                  ResolvedGrants(db', Whose(s), ctx.now) == {})
  {
    if Audited(db, s) {
      ExecutedRows(sign, db, s, ctx);
      if s.InsertGrant? || s.UpdateGrant? {
        GrantActionIsTransition(db, Execute(sign, db, s, ctx), s);
        RecordedHolds(sign, GrantStored(db, s.id, s.grant), GrantChange(s.id, s.grant),
                      GrantAction(db, s.id, s.grant), ctx);
      } else {
        AssignmentActionIsTransition(db, Execute(sign, db, s, ctx), s);
        var wrote := AssignmentStored(db, s.id, s.assignment);
        RecordedHolds(sign, wrote, AssignmentChange(wrote, s.id, s.assignment),
                      AssignmentAction(db, s.id, s.assignment), ctx);
      }
    } else {
      UnauditedSaysNothing(sign, db, s, ctx);
    }
  }
}
