/**
 `gate.delegation`: the containment check its trigger runs, the table itself, and what every row
 of a chain of delegations admits.
 */
module DelegationTable {
  import opened Wrappers
  import opened Reach
  import opened Delegation

  // ------------------------------------------------------------ gate.narrowing_refusals

  datatype Finding =
    | OtherPrincipal
    | NotHeld(capability: string)
    | ClauseDropped(capability: string)
    | OutlivesParent

  predicate Outlives(child: Reach, parent: Reach) {
    && parent.notAfter.Some?
    && (child.notAfter.None? || child.notAfter.value > parent.notAfter.value)
  }

  /** Both sides are asked about every capability either names, with both bounds set aside. */
  function NarrowingRefusals(child: Reach, parent: Reach): set<Finding> {
    var names := set c | c in FirstNamed(child.grants + parent.grants);
    (if child.principal != parent.principal then {OtherPrincipal} else {})
    + (set c | c in names && Named(child.grants, c) && !Named(parent.grants, c) :: NotHeld(c))
    + (set c | && c in names && Named(child.grants, c) && Named(parent.grants, c)
               && !(ClausesFor(parent.grants, c) <= ClausesFor(child.grants, c)) :: ClauseDropped(c))
    + (if Outlives(child, parent) then {OutlivesParent} else {})
  }

  /** Everything the child reaches the parent reaches, and the child keeps every clause of it. */
  ghost predicate Within(child: Reach, parent: Reach) {
    forall q | Named(child.grants, q) ::
      Named(parent.grants, q) && ClausesFor(parent.grants, q) <= ClausesFor(child.grants, q)
  }

  lemma WithinAtNames(child: Reach, parent: Reach, q: string)
    requires forall c | c in FirstNamed(child.grants + parent.grants) && Named(child.grants, c) ::
               Named(parent.grants, c) && ClausesFor(parent.grants, c) <= ClausesFor(child.grants, c)
    requires Named(child.grants, q)
    ensures Named(parent.grants, q) && ClausesFor(parent.grants, q) <= ClausesFor(child.grants, q)
  {
    var both := child.grants + parent.grants;
    NamedGrows(child.grants, both, q);
    var g := Narrowest(both, q);
    ScopeForAtNarrowest(Unbounded(child), 0, g.capability, q);
    ScopeForAtNarrowest(Unbounded(parent), 0, g.capability, q);
    assert g.capability in FirstNamed(both);
  }

  /**
   Asking about the named capabilities decides every capability there is: the check finds
   nothing exactly when the child is the same principal's, no later, and within the parent.
   */
  lemma NoRefusalsMeansWithin(child: Reach, parent: Reach)
    ensures NarrowingRefusals(child, parent) == {}
       <==> child.principal == parent.principal && !Outlives(child, parent) && Within(child, parent)
  {
    var found := NarrowingRefusals(child, parent);
    if found == {} {
      assert OtherPrincipal !in found && OutlivesParent !in found;
      forall c | c in FirstNamed(child.grants + parent.grants) && Named(child.grants, c)
        ensures Named(parent.grants, c) && ClausesFor(parent.grants, c) <= ClausesFor(child.grants, c)
      {
        assert NotHeld(c) !in found && ClauseDropped(c) !in found;
      }
      forall q | Named(child.grants, q)
        ensures Named(parent.grants, q) && ClausesFor(parent.grants, q) <= ClausesFor(child.grants, q)
      {
        WithinAtNames(child, parent, q);
      }
    }
  }

  /** A child no finding is raised against sees nothing its parent does not, at any instant. */
  lemma WithinAdmitsNoMore(child: Reach, parent: Reach, capability: string, row: Record, now: int)
    requires NarrowingRefusals(child, parent) == {} && Admits(child, capability, row, now)
    ensures Admits(parent, capability, row, now)
  {
    NoRefusalsMeansWithin(child, parent);
    AdmitsWhereHeld(child, capability, row, now);
    AdmitsWhereHeld(parent, capability, row, now);
  }

  // ------------------------------------------------------------ the table

  datatype Row = Row(id: string, parentId: Option<string>, runId: string, childId: string,
                     parentGrants: Option<Reach>, agentCeiling: Reach, subtaskCeiling: Reach,
                     childGrants: Reach, decidedAt: int)

  /** Why a statement against the table was refused, trigger first and constraints after it. */
  datatype Refusal =
    | EditedAfterwards
    | ParentMissing
    | DecidedBeforeParent
    | Unreadable
    | Widens(findings: set<Finding>)
    | TwoSources
    | BlankRun
    | BlankChild
    | OwnParent
    | IdTaken
    | ChildTaken

  predicate Blank(s: string) {
    forall i | 0 <= i < |s| :: s[i] == ' '
  }

  /** Where a row with this id is, or how many rows there are. */
  function IndexOf(rows: seq<Row>, id: string): (i: nat)
    ensures i <= |rows|
    ensures i < |rows| ==> rows[i].id == id
    ensures forall j | 0 <= j < i :: rows[j].id != id
  {
    if rows == [] then 0
    else if rows[0].id == id then 0
    else 1 + IndexOf(rows[1..], id)
  }

  /** The reach a row is measured against: its own column at a root, its parent row's below. */
  function ParentReach(rows: seq<Row>, row: Row): Option<Reach> {
    match row.parentId
    case None => row.parentGrants
    case Some(id) =>
      var i := IndexOf(rows, id);
      if i < |rows| then Some(rows[i].childGrants) else None
  }

  /** `gate.delegation_narrows` on an insert. */
  function Narrows(rows: seq<Row>, row: Row): Option<Refusal> {
    var parent := if row.parentId.Some? then IndexOf(rows, row.parentId.value) else |rows|;
    if row.parentId.Some? && parent == |rows| then Some(ParentMissing)
    else if row.parentId.Some? && row.decidedAt < rows[parent].decidedAt then Some(DecidedBeforeParent)
    else
      match ParentReach(rows, row)
      case None => Some(Unreadable)
      case Some(reach) =>
        var found := NarrowingRefusals(row.childGrants,
          DelegatedReach(reach, row.agentCeiling, row.subtaskCeiling, row.decidedAt));
        if found != {} then Some(Widens(found)) else None
  }

  /** The table's own constraints. */
  function Constrained(rows: seq<Row>, row: Row): Option<Refusal> {
    if Blank(row.childId) then Some(BlankChild)
    else if row.parentId == Some(row.id) then Some(OwnParent)
    else if row.parentId.None? != row.parentGrants.Some? then Some(TwoSources)
    else if Blank(row.runId) then Some(BlankRun)
    else if exists r | r in rows :: r.id == row.id then Some(IdTaken)
    else if exists r | r in rows :: r.runId == row.runId && r.childId == row.childId then Some(ChildTaken)
    else None
  }

  function Insertion(rows: seq<Row>, row: Row): Option<Refusal> {
    match Narrows(rows, row)
    case Some(refusal) => Some(refusal)
    case None => Constrained(rows, row)
  }

  /** The tables single inserts can build. */
  ghost predicate Built(rows: seq<Row>) {
    rows == [] || (Built(rows[..|rows| - 1]) && Insertion(rows[..|rows| - 1], rows[|rows| - 1]) == None)
  }

  class Delegations {
    var rows: seq<Row>

    constructor ()
      ensures rows == [] && Built(rows)
    {
      rows := [];
    }

    /** The trigger's one read: a parent row by its key. */
    method Find(id: string) returns (i: nat)
      ensures i == IndexOf(rows, id)
    {
      i := 0;
      while i < |rows| && rows[i].id != id
        invariant i <= |rows|
        invariant IndexOf(rows, id) == i + IndexOf(rows[i..], id)
      {
        assert rows[i..][1..] == rows[i + 1..];
        i := i + 1;
      }
    }

    method Insert(row: Row) returns (refusal: Option<Refusal>)
      modifies this
      ensures refusal == Insertion(old(rows), row)
      ensures rows == if refusal.None? then old(rows) + [row] else old(rows)
      ensures old(Built(rows)) ==> Built(rows)
    {
      var reach := row.parentGrants;
      if row.parentId.Some? {
        var i := Find(row.parentId.value);
        if i == |rows| {
          return Some(ParentMissing);
        }
        if row.decidedAt < rows[i].decidedAt {
          return Some(DecidedBeforeParent);
        }
        reach := Some(rows[i].childGrants);
      }
      if reach.None? {
        return Some(Unreadable);
      }
      var bound := DelegatedReach(reach.value, row.agentCeiling, row.subtaskCeiling, row.decidedAt);
      var found := NarrowingRefusals(row.childGrants, bound);
      if found != {} {
        return Some(Widens(found));
      }
      refusal := Constrained(rows, row);
      if refusal.None? {
        rows := rows + [row];
        assert rows[..|rows| - 1] == old(rows);
      }
    }

    /** A delegation row records one decision: an edit of a row there is is refused, and nothing moves. */
    method Update(id: string, row: Row) returns (refusal: Option<Refusal>)
      ensures refusal == UpdateRefusal(rows, id)
    {
      var i := Find(id);
      refusal := if i < |rows| then Some(EditedAfterwards) else None;
    }
  }

  /** The trigger fires for each row an update would change. */
  function UpdateRefusal(rows: seq<Row>, id: string): (refusal: Option<Refusal>)
    ensures refusal.Some? <==> exists r | r in rows :: r.id == id
  {
    if IndexOf(rows, id) < |rows| then Some(EditedAfterwards) else None
  }

  // ------------------------------------------------------------ runs of statements

  datatype Statement = Insert(row: Row) | Update(id: string, row: Row)

  /** What a statement leaves. An update that is not refused is one of no row. */
  function Taken(rows: seq<Row>, s: Statement): seq<Row> {
    match s
    case Insert(row) => if Insertion(rows, row).None? then rows + [row] else rows
    case Update(id, row) =>
      if UpdateRefusal(rows, id).Some? then rows
      else seq(|rows|, i requires 0 <= i < |rows| => if rows[i].id == id then row else rows[i])
  }

  lemma TakenKeepsBuilt(rows: seq<Row>, s: Statement)
    requires Built(rows)
    ensures Built(Taken(rows, s)) && rows <= Taken(rows, s)
  {
    var next := Taken(rows, s);
    if s.Insert? && next != rows {
      assert next[..|next| - 1] == rows;
    }
    if s.Update? {
      assert next == rows;
    }
  }

  /** Whatever inserts and updates are tried, the table is one that inserts alone could have built. */
  ghost function After(run: seq<Statement>): (rows: seq<Row>)
    ensures Built(rows)
  {
    if run == [] then []
    else
      TakenKeepsBuilt(After(run[..|run| - 1]), run[|run| - 1]);
      Taken(After(run[..|run| - 1]), run[|run| - 1])
  }

  /** Over every run no row is ever changed or removed. */
  lemma {:induction false} RowsStand(run: seq<Statement>, more: seq<Statement>)
    ensures After(run) <= After(run + more)
  {
    if more == [] {
      assert run + more == run;
    } else {
      var before := more[..|more| - 1];
      assert (run + more)[..|run + more| - 1] == run + before;
      RowsStand(run, before);
      TakenKeepsBuilt(After(run + before), more[|more| - 1]);
    }
  }

  // ------------------------------------------------------------ the chain above a row

  lemma {:induction false} BuiltPrefix(rows: seq<Row>, n: nat)
    requires Built(rows) && n <= |rows|
    ensures Built(rows[..n])
    decreases |rows|
  {
    if n < |rows| {
      BuiltPrefix(rows[..|rows| - 1], n);
      assert rows[..|rows| - 1][..n] == rows[..n];
    } else {
      assert rows[..n] == rows;
    }
  }

  /** Every row was admitted against the rows before it, so its parent is one of those. */
  lemma {:induction false} RowWasAdmitted(rows: seq<Row>, i: nat)
    requires Built(rows) && i < |rows|
    ensures Insertion(rows[..i], rows[i]) == None
    ensures rows[i].parentId.Some? ==> IndexOf(rows[..i], rows[i].parentId.value) < i
  {
    BuiltPrefix(rows, i + 1);
    assert rows[..i + 1][..i] == rows[..i];
  }

  /** A child outlives its parent when there is a moment the one has ended by and the other has not. */
  lemma OutlivesMeans(child: Reach, parent: Reach)
    ensures Outlives(child, parent) <==> exists now :: Expired(parent, now) && !Expired(child, now)
  {
    if Outlives(child, parent) {
      assert Expired(parent, parent.notAfter.value) && !Expired(child, parent.notAfter.value);
    }
  }

  /** No two rows share an id, and no child of a run has two rows. */
  lemma {:induction false} NoRowTwice(rows: seq<Row>, i: nat, j: nat)
    requires Built(rows) && i < j < |rows|
    ensures rows[i].id != rows[j].id
    ensures rows[i].runId != rows[j].runId || rows[i].childId != rows[j].childId
  {
    RowWasAdmitted(rows, j);
    assert rows[..j][i] == rows[i];
    AdmittedIsNew(rows[..j], rows[j], rows[i]);
  }

  lemma {:induction false} AdmittedIsNew(before: seq<Row>, row: Row, other: Row)
    requires Insertion(before, row).None? && other in before
    ensures other.id != row.id && (other.runId != row.runId || other.childId != row.childId)
  {
    InsertedIsConstrained(before, row);
    ConstrainedIsWellFormed(before, row);
  }

  lemma {:induction false} InsertedIsConstrained(rows: seq<Row>, row: Row)
    requires Insertion(rows, row).None?
    ensures Constrained(rows, row).None?
  {
  }

  /** Every row says where its parent reach comes from, in one way and not in both, and whose it is. */
  lemma {:induction false} EveryRowHasOneSource(rows: seq<Row>, i: nat)
    requires Built(rows) && i < |rows|
    ensures rows[i].parentId.Some? <==> rows[i].parentGrants.None?
    ensures rows[i].parentId != Some(rows[i].id)
    ensures exists k | 0 <= k < |rows[i].runId| :: rows[i].runId[k] != ' '
    ensures exists k | 0 <= k < |rows[i].childId| :: rows[i].childId[k] != ' '
  {
    RowWasAdmitted(rows, i);
  }

  /** The child's reach keeps within what the parent's and the two ceilings allow it. */
  ghost predicate Narrowed(row: Row, reach: Reach) {
    var bound := DelegatedReach(reach, row.agentCeiling, row.subtaskCeiling, row.decidedAt);
    && row.childGrants.principal == reach.principal && Within(row.childGrants, bound)
    && forall now | Expired(bound, now) :: Expired(row.childGrants, now)
  }

  lemma NarrowedIsUnrefused(row: Row, reach: Reach)
    ensures Narrowed(row, reach) <==>
            NarrowingRefusals(row.childGrants,
                              DelegatedReach(reach, row.agentCeiling, row.subtaskCeiling, row.decidedAt)) == {}
  {
    var bound := DelegatedReach(reach, row.agentCeiling, row.subtaskCeiling, row.decidedAt);
    NoRefusalsMeansWithin(row.childGrants, bound);
    OutlivesMeans(row.childGrants, bound);
  }

  /** The row a new one names as its parent, if it is there and was decided no later. */
  predicate IsItsParent(rows: seq<Row>, j: nat, row: Row) {
    j < |rows| && row.parentId == Some(rows[j].id) && rows[j].decidedAt <= row.decidedAt
  }

  /** Everything an insert needs that has to do with the row alone and the rows there are. */
  ghost predicate WellFormed(rows: seq<Row>, row: Row) {
    && (forall r | r in rows :: r.id != row.id && (r.runId != row.runId || r.childId != row.childId))
    && (exists k | 0 <= k < |row.runId| :: row.runId[k] != ' ')
    && (exists k | 0 <= k < |row.childId| :: row.childId[k] != ' ')
    && row.parentId != Some(row.id)
    && (row.parentId.Some? <==> row.parentGrants.None?)
  }

  lemma {:induction false} ConstrainedIsWellFormed(rows: seq<Row>, row: Row)
    ensures Constrained(rows, row).None? <==> WellFormed(rows, row)
  {
  }

  lemma ItsParentIsFound(rows: seq<Row>, j: nat, row: Row)
    requires Built(rows) && IsItsParent(rows, j, row)
    ensures IndexOf(rows, rows[j].id) == j
  {
    var i := IndexOf(rows, rows[j].id);
    if i < j {
      NoRowTwice(rows, i, j);
    }
  }

  /**
   An insert is accepted exactly when its row is well formed and its child's reach is narrowed: at a
   root from the reach it records, and below from the reach of the row it names, decided no later.
   */
  lemma {:induction false} AnInsertIsAcceptedIff(rows: seq<Row>, row: Row)
    requires Built(rows)
    ensures Insertion(rows, row).None? <==>
            && WellFormed(rows, row)
            && match row.parentId
               case None => row.parentGrants.Some? && Narrowed(row, row.parentGrants.value)
               case Some(_) => exists j: nat | IsItsParent(rows, j, row) :: Narrowed(row, rows[j].childGrants)
  {
    ConstrainedIsWellFormed(rows, row);
    if row.parentId.None? {
      if row.parentGrants.Some? {
        NarrowedIsUnrefused(row, row.parentGrants.value);
      }
    } else {
      var i := IndexOf(rows, row.parentId.value);
      if i < |rows| {
        NarrowedIsUnrefused(row, rows[i].childGrants);
        assert IsItsParent(rows, i, row) <==> rows[i].decidedAt <= row.decidedAt;
      }
      forall j: nat | IsItsParent(rows, j, row) ensures i == j {
        ItsParentIsFound(rows, j, row);
      }
    }
  }

  /** The parent row's place: always an earlier one, so walking up a chain ends at a root. */
  ghost function ParentOf(rows: seq<Row>, i: nat): (p: nat)
    requires Built(rows) && i < |rows| && rows[i].parentId.Some?
    ensures p < i && rows[p].id == rows[i].parentId.value
  {
    RowWasAdmitted(rows, i);
    IndexOf(rows[..i], rows[i].parentId.value)
  }

  ghost function RootOf(rows: seq<Row>, i: nat): (r: nat)
    requires Built(rows) && i < |rows|
    ensures r <= i && rows[r].parentId.None? && rows[r].parentGrants.Some?
  {
    RowWasAdmitted(rows, i);
    if rows[i].parentId.None? then i else RootOf(rows, ParentOf(rows, i))
  }

  /** Whether a row is on the way from row i up to its root, row i and the root included. */
  ghost predicate OnChain(rows: seq<Row>, i: nat, j: nat)
    requires Built(rows) && i < |rows|
  {
    i == j || (rows[i].parentId.Some? && OnChain(rows, ParentOf(rows, i), j))
  }

  lemma OneHop(rows: seq<Row>, i: nat, capability: string, row: Record, now: int)
    requires Built(rows) && i < |rows| && Admits(rows[i].childGrants, capability, row, now)
    ensures Admits(rows[i].agentCeiling, capability, row, now)
    ensures Admits(rows[i].subtaskCeiling, capability, row, now)
    ensures ParentReach(rows[..i], rows[i]).Some?
    ensures Admits(ParentReach(rows[..i], rows[i]).value, capability, row, now)
  {
    RowWasAdmitted(rows, i);
    var r := rows[i];
    var reach := ParentReach(rows[..i], r).value;
    var bound := DelegatedReach(reach, r.agentCeiling, r.subtaskCeiling, r.decidedAt);
    WithinAdmitsNoMore(r.childGrants, bound, capability, row, now);
    DelegatedReachIsTheMeet(reach, r.agentCeiling, r.subtaskCeiling, r.decidedAt, capability, row, now);
  }

  /**
   No chain of delegations widens. Whatever a row's child admits, at any capability, on any
   record and at any instant, the asker's reach at the root admits it, and so does every reach
   and every ceiling recorded on the way up.
   */
  lemma {:induction false} NoChainWidens(rows: seq<Row>, i: nat, j: nat, capability: string, row: Record, now: int)
    requires Built(rows) && i < |rows| && j < |rows|
    requires Admits(rows[i].childGrants, capability, row, now)
    ensures Admits(rows[RootOf(rows, i)].parentGrants.value, capability, row, now)
    ensures OnChain(rows, i, j) ==>
              && Admits(rows[j].childGrants, capability, row, now)
              && Admits(rows[j].agentCeiling, capability, row, now)
              && Admits(rows[j].subtaskCeiling, capability, row, now)
  {
    OneHop(rows, i, capability, row, now);
    RowWasAdmitted(rows, i);
    if rows[i].parentId.Some? {
      NoChainWidens(rows, ParentOf(rows, i), j, capability, row, now);
    }
  }

  lemma OneHopKeeps(rows: seq<Row>, i: nat)
    requires Built(rows) && i < |rows|
    ensures ParentReach(rows[..i], rows[i]).Some?
    ensures var reach := ParentReach(rows[..i], rows[i]).value;
            rows[i].childGrants.principal == reach.principal && !Outlives(rows[i].childGrants, reach)
    ensures rows[i].parentId.Some? ==> rows[ParentOf(rows, i)].decidedAt <= rows[i].decidedAt
  {
    RowWasAdmitted(rows, i);
    var r := rows[i];
    var reach := ParentReach(rows[..i], r).value;
    NarrowedKeeps(r.childGrants, reach, r.agentCeiling, r.subtaskCeiling, r.decidedAt);
  }

  lemma NarrowedKeeps(child: Reach, parent: Reach, agent: Reach, subtask: Reach, at: int)
    requires NarrowingRefusals(child, DelegatedReach(parent, agent, subtask, at)) == {}
    ensures child.principal == parent.principal && !Outlives(child, parent)
  {
    var bound := DelegatedReach(parent, agent, subtask, at);
    assert OtherPrincipal !in NarrowingRefusals(child, bound);
    assert OutlivesParent !in NarrowingRefusals(child, bound);
  }

  /** A chain is one principal's, decided in order, and no row outlives the root's reach. */
  lemma {:induction false} ChainKeepsPrincipalOrderAndExpiry(rows: seq<Row>, i: nat)
    requires Built(rows) && i < |rows|
    ensures rows[i].childGrants.principal == rows[RootOf(rows, i)].parentGrants.value.principal
    ensures rows[RootOf(rows, i)].decidedAt <= rows[i].decidedAt
    ensures !Outlives(rows[i].childGrants, rows[RootOf(rows, i)].parentGrants.value)
  {
    OneHopKeeps(rows, i);
    if rows[i].parentId.Some? {
      var p := ParentOf(rows, i);
      assert ParentReach(rows[..i], rows[i]).value == rows[p].childGrants;
      ChainKeepsPrincipalOrderAndExpiry(rows, p);
    }
  }

  /** Rows are only ever added, so what was proved of a chain stays proved of it. */
  lemma {:induction false} ChainsStay(rows: seq<Row>, more: seq<Row>, i: nat, j: nat)
    requires Built(rows) && Built(rows + more) && i < |rows|
    ensures RootOf(rows + more, i) == RootOf(rows, i)
    ensures OnChain(rows + more, i, j) == OnChain(rows, i, j)
  {
    RowWasAdmitted(rows, i);
    assert (rows + more)[..i] == rows[..i];
    if rows[i].parentId.Some? {
      ChainsStay(rows, more, ParentOf(rows, i), j);
    }
  }

  /**
   Over every run of inserts and attempted updates, and at any later time, what a row's child admits
   the asker's reach at its root admits, and that root is the one it had when it was written.
   */
  lemma {:induction false} NoRunWidens(run: seq<Statement>, more: seq<Statement>, i: nat, capability: string, row: Record, now: int)
    requires i < |After(run)|
    ensures After(run) <= After(run + more) && RootOf(After(run + more), i) == RootOf(After(run), i)
    ensures Admits(After(run + more)[i].childGrants, capability, row, now) ==>
              Admits(After(run)[RootOf(After(run), i)].parentGrants.value, capability, row, now)
  {
    RowsStand(run, more);
    var added := After(run + more)[|After(run)|..];
    assert After(run + more) == After(run) + added;
    MoreRowsAdmitNoMore(After(run), added, i, capability, row, now);
  }

  lemma {:induction false} MoreRowsAdmitNoMore(rows: seq<Row>, added: seq<Row>, i: nat,
                                               capability: string, row: Record, now: int)
    requires Built(rows) && Built(rows + added) && i < |rows|
    ensures RootOf(rows + added, i) == RootOf(rows, i)
    ensures Admits((rows + added)[i].childGrants, capability, row, now) ==>
              Admits(rows[RootOf(rows, i)].parentGrants.value, capability, row, now)
  {
    ChainsStay(rows, added, i, i);
    var root := RootOf(rows, i);
    assert (rows + added)[i] == rows[i] && (rows + added)[root] == rows[root];
    if Admits(rows[i].childGrants, capability, row, now) {
      NoChainWidens(rows, i, i, capability, row, now);
    }
  }
}
