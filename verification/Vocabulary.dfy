/**
 A vocabulary that widens one value at a time: the check constraints that migrations 0007, 0011,
 0012 and 0013 put on the channel columns, and 0022, 0023 and 0026 on the ledger's action.
 */
module Vocabulary {

  /**
   The values there were to begin with, the one each revision adds, and whether the tables refuse
   update and delete, as the ledger does.
   */
  datatype Chain = Chain(base: set<string>, added: seq<string>, appendOnly: bool)

  /** Each revision adds a value that was not there. */
  predicate IsChain(c: Chain) {
    && (forall i | 0 <= i < |c.added| :: c.added[i] !in c.base)
    && (forall i, j | 0 <= i < j < |c.added| :: c.added[i] != c.added[j])
  }

  function Allowed(c: Chain, level: nat): set<string>
    requires level <= |c.added|
  {
    c.base + (set i | 0 <= i < level :: c.added[i])
  }

  /** A constrained table: what its column holds, row by row, and the list writes are held to. */
  datatype Table = Table(rows: seq<string>, allowed: set<string>)

  datatype Db = Db(tables: seq<Table>, level: nat)

  datatype Op =
    | Insert(table: nat, value: string)
    | Rewrite(table: nat, row: nat, value: string)
    | Delete(table: nat, row: nat)
    | Upgrade
    | Downgrade

  /** A value some revision after the `level`th introduced. */
  predicate IntroducedAbove(c: Chain, level: nat, value: string) {
    exists i | level <= i < |c.added| :: c.added[i] == value
  }

  predicate Held(db: Db, allowed: set<string>) {
    forall t, r | 0 <= t < |db.tables| && 0 <= r < |db.tables[t].rows| :: db.tables[t].rows[r] in allowed
  }

  function Relisted(db: Db, allowed: set<string>): seq<Table> {
    seq(|db.tables|, t requires 0 <= t < |db.tables| => db.tables[t].(allowed := allowed))
  }

  /** What each statement leaves; a refused one leaves everything as it was. */
  function Apply(c: Chain, db: Db, op: Op): Db {
    match op
    case Insert(t, v) =>
      if t < |db.tables| && v in db.tables[t].allowed
      then db.(tables := db.tables[t := db.tables[t].(rows := db.tables[t].rows + [v])])
      else db
    case Rewrite(t, r, v) =>
      if !c.appendOnly && t < |db.tables| && r < |db.tables[t].rows| && v in db.tables[t].allowed
      then db.(tables := db.tables[t := db.tables[t].(rows := db.tables[t].rows[r := v])])
      else db
    case Delete(t, r) =>
      if !c.appendOnly && t < |db.tables| && r < |db.tables[t].rows|
      then db.(tables := db.tables[t := db.tables[t].(rows := db.tables[t].rows[..r] + db.tables[t].rows[r + 1..])])
      else db
    case Upgrade =>
      if db.level < |c.added| && Held(db, Allowed(c, db.level + 1))
      then Db(Relisted(db, Allowed(c, db.level + 1)), db.level + 1)
      else db
    case Downgrade =>
      if 0 < db.level <= |c.added| then Db(Relisted(db, Allowed(c, db.level - 1)), db.level - 1) else db
  }

  // ------------------------------------------------------------ the migrations as they run

  class Database {
    const chain: Chain
    var tables: seq<Table>
    var level: nat

    constructor (chain: Chain, n: nat)
      ensures this.chain == chain && Now() == Fresh(chain, n)
    {
      this.chain := chain;
      tables := seq(n, _ => Table([], Allowed(chain, 0)));
      level := 0;
    }

    function Now(): Db
      reads this
    {
      Db(tables, level)
    }

    /**
     One revision forward: table by table the constraint is dropped and made again over the wider
     list, which reads every row; one that is not in it undoes the whole transaction.
     */
    method Widen() returns (ok: bool)
      modifies this
      ensures Now() == Apply(chain, old(Now()), Upgrade)
      ensures ok <==> old(level) < |chain.added| && Held(old(Now()), Allowed(chain, old(level) + 1))
    {
      if level >= |chain.added| {
        return false;
      }
      var wider := Allowed(chain, level + 1);
      var before := tables;
      for t := 0 to |before|
        invariant |tables| == |before| && level == old(level)
        invariant forall u | 0 <= u < t :: tables[u] == before[u].(allowed := wider)
        invariant forall u | t <= u < |before| :: tables[u] == before[u]
        invariant forall u, r | 0 <= u < t && 0 <= r < |before[u].rows| :: before[u].rows[r] in wider
      {
        for r := 0 to |before[t].rows|
          invariant forall q | 0 <= q < r :: before[t].rows[q] in wider
        {
          if before[t].rows[r] !in wider {
            tables := before;
            return false;
          }
        }
        tables := tables[t := Table(before[t].rows, wider)];
      }
      level := level + 1;
      assert tables == Relisted(old(Now()), wider);
      ok := true;
    }

    /** One revision back: the narrower list is made again without reading a row. */
    method Narrow() returns (ok: bool)
      modifies this
      ensures Now() == Apply(chain, old(Now()), Downgrade)
      ensures ok <==> 0 < old(level) <= |chain.added|
    {
      if level == 0 || level > |chain.added| {
        return false;
      }
      var narrower := Allowed(chain, level - 1);
      for t := 0 to |tables|
        invariant |tables| == |old(tables)| && level == old(level)
        invariant forall u | 0 <= u < t :: tables[u] == old(tables)[u].(allowed := narrower)
        invariant forall u | t <= u < |tables| :: tables[u] == old(tables)[u]
      {
        tables := tables[t := Table(tables[t].rows, narrower)];
      }
      level := level - 1;
      assert tables == Relisted(old(Now()), narrower);
      ok := true;
    }

    /** A row written: held to the list in force. */
    method Write(t: nat, v: string) returns (ok: bool)
      modifies this
      ensures Now() == Apply(chain, old(Now()), Insert(t, v))
      ensures ok <==> t < |old(tables)| && v in old(tables)[t].allowed
    {
      ok := t < |tables| && v in tables[t].allowed;
      if ok {
        tables := tables[t := Table(tables[t].rows + [v], tables[t].allowed)];
      }
    }
  }

  // ------------------------------------------------------------ runs

  function Fresh(c: Chain, n: nat): Db {
    Db(seq(n, _ => Table([], Allowed(c, 0))), 0)
  }

  function After(c: Chain, n: nat, run: seq<Op>): Db {
    if run == [] then Fresh(c, n) else Apply(c, After(c, n, run[..|run| - 1]), run[|run| - 1])
  }

  /** The highest revision the run ever reached. */
  function Highest(c: Chain, n: nat, run: seq<Op>): nat {
    if run == [] then 0
    else
      var before, now := Highest(c, n, run[..|run| - 1]), After(c, n, run).level;
      if now > before then now else before
  }

  /** What every run keeps. */
  ghost predicate Kept(c: Chain, db: Db, highest: nat) {
    && db.level <= highest <= |c.added|
    && (forall t | 0 <= t < |db.tables| :: db.tables[t].allowed == Allowed(c, db.level))
    && Held(db, Allowed(c, highest))
  }

  lemma AllowedGrows(c: Chain, low: nat, high: nat)
    requires low <= high <= |c.added|
    ensures Allowed(c, low) <= Allowed(c, high)
  {
  }

  lemma WritesKeep(c: Chain, db: Db, highest: nat, op: Op)
    requires Kept(c, db, highest) && !op.Upgrade? && !op.Downgrade?
    ensures Kept(c, Apply(c, db, op), highest) && Apply(c, db, op).level == db.level
  {
    AllowedGrows(c, db.level, highest);
  }

  /** The constraints in force are those of the revision, and rows are of some revision reached. */
  lemma {:induction false} EveryRunKeeps(c: Chain, n: nat, run: seq<Op>)
    ensures Kept(c, After(c, n, run), Highest(c, n, run))
  {
    if run != [] {
      var front, op := run[..|run| - 1], run[|run| - 1];
      EveryRunKeeps(c, n, front);
      var db, highest := After(c, n, front), Highest(c, n, front);
      if !op.Upgrade? && !op.Downgrade? {
        WritesKeep(c, db, highest, op);
      } else if op.Upgrade? && Apply(c, db, op).level > highest {
        AllowedGrows(c, highest, db.level + 1);
      }
    }
  }

  lemma AllowedOrIntroduced(c: Chain, level: nat, value: string)
    requires IsChain(c) && level <= |c.added| && value in Allowed(c, |c.added|)
    ensures value in Allowed(c, level) <==> !IntroducedAbove(c, level, value)
  {
  }

  /** A row of the database carries a value introduced above a revision. */
  predicate CarriesAbove(c: Chain, db: Db, level: nat) {
    exists t, r | 0 <= t < |db.tables| && 0 <= r < |db.tables[t].rows| ::
      IntroducedAbove(c, level, db.tables[t].rows[r])
  }

  /** After any run, the next upgrade is taken exactly when no row carries a value of a later revision. */
  lemma AnUpgradeSucceedsIff(c: Chain, n: nat, run: seq<Op>)
    requires IsChain(c)
    ensures var db := After(c, n, run);
            (Apply(c, db, Upgrade).level == db.level + 1
             <==> db.level < |c.added| && !CarriesAbove(c, db, db.level + 1))
  {
    EveryRunKeeps(c, n, run);
    var db := After(c, n, run);
    AllowedGrows(c, Highest(c, n, run), |c.added|);
    if db.level < |c.added| {
      forall t, r | 0 <= t < |db.tables| && 0 <= r < |db.tables[t].rows|
        ensures db.tables[t].rows[r] in Allowed(c, db.level + 1)
           <==> !IntroducedAbove(c, db.level + 1, db.tables[t].rows[r])
      {
        AllowedOrIntroduced(c, db.level + 1, db.tables[t].rows[r]);
      }
    }
  }

  /** A run that is at most one revision below the highest it reached always has its next upgrade. */
  lemma OneBackAlwaysComesForward(c: Chain, n: nat, run: seq<Op>)
    requires After(c, n, run).level < |c.added|
    requires Highest(c, n, run) <= After(c, n, run).level + 1
    ensures Apply(c, After(c, n, run), Upgrade).level == After(c, n, run).level + 1
  {
    EveryRunKeeps(c, n, run);
    AllowedGrows(c, Highest(c, n, run), After(c, n, run).level + 1);
  }

  // ------------------------------------------------------------ two back

  function Upgrades(k: nat): (run: seq<Op>)
    ensures |run| == k
  {
    seq(k, _ => Upgrade)
  }

  lemma {:induction false} ClimbsFreely(c: Chain, n: nat, k: nat)
    requires k <= |c.added|
    ensures After(c, n, Upgrades(k)) == Db(seq(n, _ => Table([], Allowed(c, k))), k)
  {
    if k > 0 {
      ClimbsFreely(c, n, k - 1);
      assert Upgrades(k)[..k - 1] == Upgrades(k - 1);
    }
  }

  function TwoBack(c: Chain, k: nat): seq<Op>
    requires k + 2 <= |c.added|
  {
    Upgrades(k + 2) + [Insert(0, c.added[k + 1])] + [Downgrade] + [Downgrade]
  }

  /**
   Whatever the chain and however far along it: write the newest value, go two revisions back, and
   the next upgrade is refused.
   */
  lemma TwoBackMayNotComeForward(c: Chain, n: nat, k: nat)
    requires IsChain(c) && n > 0 && k + 2 <= |c.added|
    ensures var db := After(c, n, TwoBack(c, k));
            db.level == k && |db.tables| == n && db.tables[0].rows == [c.added[k + 1]]
    ensures Apply(c, After(c, n, TwoBack(c, k)), Upgrade) == After(c, n, TwoBack(c, k))
  {
    ClimbsFreely(c, n, k + 2);
    ThreeMore(c, n, Upgrades(k + 2), Insert(0, c.added[k + 1]), Downgrade, Downgrade);
    WrittenAndTwoBack(c, After(c, n, Upgrades(k + 2)), k, c.added[k + 1]);
  }

  lemma ThreeMore(c: Chain, n: nat, run: seq<Op>, first: Op, second: Op, third: Op)
    ensures After(c, n, run + [first] + [second] + [third])
         == Apply(c, Apply(c, Apply(c, After(c, n, run), first), second), third)
  {
    Then(c, n, run, first);
    Then(c, n, run + [first], second);
    Then(c, n, run + [first] + [second], third);
  }

  /** What those three statements leave, from a database that is two revisions on and empty. */
  lemma WrittenAndTwoBack(c: Chain, db: Db, k: nat, v: string)
    requires IsChain(c) && k + 2 <= |c.added| && v == c.added[k + 1]
    requires db.tables != [] && db.level == k + 2
    requires db.tables[0] == Table([], Allowed(c, k + 2))
    ensures var back := Apply(c, Apply(c, Apply(c, db, Insert(0, v)), Downgrade), Downgrade);
            && back.level == k && |back.tables| == |db.tables| && back.tables[0].rows == [v]
            && Apply(c, back, Upgrade) == back
  {
    var written := Apply(c, db, Insert(0, v));
    assert written.tables[0].rows == [] + [v];
    var once := Apply(c, written, Downgrade);
    assert once.level == k + 1 && once.tables[0].rows == [v];
    var back := Apply(c, once, Downgrade);
    assert back.tables[0].rows == [v] && v !in Allowed(c, k + 1);
    assert back.tables[0].rows[0] == v;
  }

  lemma Then(c: Chain, n: nat, run: seq<Op>, op: Op)
    ensures After(c, n, run + [op]) == Apply(c, After(c, n, run), op)
  {
    assert (run + [op])[..|run|] == run;
  }

  // ------------------------------------------------------------ the ledger cannot be repaired

  function Onward(c: Chain, db: Db, run: seq<Op>): Db {
    if run == [] then db else Apply(c, Onward(c, db, run[..|run| - 1]), run[|run| - 1])
  }

  lemma RowsStay(c: Chain, db: Db, op: Op, t: nat, r: nat)
    requires c.appendOnly && t < |db.tables| && r < |db.tables[t].rows|
    ensures var now := Apply(c, db, op);
            |now.tables| == |db.tables| && r < |now.tables[t].rows| && now.tables[t].rows[r] == db.tables[t].rows[r]
  {
  }

  /**
   In a table that only grows, a row whose value is two or more revisions ahead holds the database
   back for good: no sequence of writes, downgrades and upgrades reaches a revision above.
   */
  lemma {:induction false} AnAppendOnlyTableIsStuck(c: Chain, db: Db, run: seq<Op>, t: nat, r: nat)
    requires IsChain(c) && c.appendOnly && db.level + 1 <= |c.added|
    requires t < |db.tables| && r < |db.tables[t].rows|
    requires IntroducedAbove(c, db.level + 1, db.tables[t].rows[r])
    ensures var now := Onward(c, db, run);
            && now.level <= db.level && |now.tables| == |db.tables|
            && r < |now.tables[t].rows| && now.tables[t].rows[r] == db.tables[t].rows[r]
  {
    if run != [] {
      var front := Onward(c, db, run[..|run| - 1]);
      AnAppendOnlyTableIsStuck(c, db, run[..|run| - 1], t, r);
      RowsStay(c, front, run[|run| - 1], t, r);
      var value := db.tables[t].rows[r];
      assert value !in Allowed(c, db.level + 1);
      AllowedGrows(c, front.level + 1, db.level + 1);
    }
  }

  /** Where rows may be deleted, deleting the one row in the way lets the upgrade be taken. */
  lemma DeletingLetsItForward(c: Chain, db: Db, t: nat, r: nat)
    requires !c.appendOnly && db.level < |c.added| && t < |db.tables| && r < |db.tables[t].rows|
    requires forall u, q | 0 <= u < |db.tables| && 0 <= q < |db.tables[u].rows| && (u != t || q != r) ::
               db.tables[u].rows[q] in Allowed(c, db.level + 1)
    ensures Apply(c, Apply(c, db, Delete(t, r)), Upgrade).level == db.level + 1
  {
    var next := Apply(c, db, Delete(t, r));
    forall u, q | 0 <= u < |next.tables| && 0 <= q < |next.tables[u].rows|
      ensures next.tables[u].rows[q] in Allowed(c, db.level + 1)
    {
      if u == t {
        assert next.tables[t].rows[q] == db.tables[t].rows[if q < r then q else q + 1];
      } else {
        assert next.tables[u].rows[q] == db.tables[u].rows[q];
      }
    }
  }

  /** A rollback keeps every row, and holds what is written next to the narrower list. */
  lemma ADowngradeKeepsTheRows(c: Chain, n: nat, run: seq<Op>, t: nat, v: string)
    requires IsChain(c) && t < n
    ensures var db := After(c, n, run);
            var now := Apply(c, db, Downgrade);
            && |now.tables| == |db.tables| == n
            && now.tables[t].rows == db.tables[t].rows
            && (db.level > 0 && IntroducedAbove(c, db.level - 1, v) ==> Apply(c, now, Insert(t, v)) == now)
  {
    EveryRunKeeps(c, n, run);
    TablesStay(c, n, run);
  }

  lemma {:induction false} TablesStay(c: Chain, n: nat, run: seq<Op>)
    ensures |After(c, n, run).tables| == n
  {
    if run != [] {
      TablesStay(c, n, run[..|run| - 1]);
    }
  }

  // ------------------------------------------------------------ the two chains

  /** 0007, 0011, 0012 and 0013, on auth.principal_identity and auth.session. */
  const Channels := Chain({"api", "console", "email", "lark", "scheduler", "webhook", "whatsapp"},
                          ["widget", "slack", "telegram", "teams"], false)

  /** 0022, 0023 and 0026, on obs.audit_entry. */
  const Actions := Chain({"break_glass", "deny", "entity_merge", "grant", "leash_change", "publish", "revoke"},
                         ["compose_change", "approval", "record_read"], true)

  lemma AllowedNext(c: Chain, k: nat)
    requires k < |c.added|
    ensures Allowed(c, 0) == c.base && Allowed(c, k + 1) == Allowed(c, k) + {c.added[k]}
  {
  }

  lemma BothAreChains()
    ensures IsChain(Channels) && IsChain(Actions)
  {
  }

  /** The list each link of the channel chain installs, from before 0007 to 0013. */
  lemma TheChannelLists()
    ensures Allowed(Channels, 0) == {"api", "console", "email", "lark", "scheduler", "webhook", "whatsapp"}
    ensures Allowed(Channels, 1) == {"api", "console", "email", "lark", "scheduler", "webhook", "whatsapp", "widget"}
    ensures Allowed(Channels, 2)
         == {"api", "console", "email", "lark", "scheduler", "slack", "webhook", "whatsapp", "widget"}
    ensures Allowed(Channels, 3)
         == {"api", "console", "email", "lark", "scheduler", "slack", "telegram", "webhook", "whatsapp", "widget"}
    ensures Allowed(Channels, 4)
         == {"api", "console", "email", "lark", "scheduler", "slack", "teams", "telegram", "webhook", "whatsapp",
             "widget"}
  {
    AllowedNext(Channels, 0);
    AllowedNext(Channels, 1);
    AllowedNext(Channels, 2);
    AllowedNext(Channels, 3);
  }

  /** The list each link of the action chain installs, from before 0022 to 0026. */
  lemma TheActionLists()
    ensures Allowed(Actions, 0) == {"break_glass", "deny", "entity_merge", "grant", "leash_change", "publish", "revoke"}
    ensures Allowed(Actions, 1)
         == {"break_glass", "compose_change", "deny", "entity_merge", "grant", "leash_change", "publish", "revoke"}
    ensures Allowed(Actions, 2)
         == {"approval", "break_glass", "compose_change", "deny", "entity_merge", "grant", "leash_change", "publish",
             "revoke"}
    ensures Allowed(Actions, 3)
         == {"approval", "break_glass", "compose_change", "deny", "entity_merge", "grant", "leash_change", "publish",
             "record_read", "revoke"}
  {
    AllowedNext(Actions, 0);
    AllowedNext(Actions, 1);
    AllowedNext(Actions, 2);
  }

  /**
   A ledger that has recorded a read and been taken two revisions back never sees 0023's upgrade
   taken again, whatever is done after.
   */
  lemma ARecordedReadBlocksTheWayForward(run: seq<Op>)
    ensures Onward(Actions, After(Actions, 1, TwoBack(Actions, 1)), run).level <= 1
  {
    BothAreChains();
    TwoBackMayNotComeForward(Actions, 1, 1);
    var db := After(Actions, 1, TwoBack(Actions, 1));
    assert Actions.added[2] == db.tables[0].rows[0];
    AnAppendOnlyTableIsStuck(Actions, db, run, 0, 0);
  }
}
