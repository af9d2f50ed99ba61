/**
 Concurrent transactions appending to the ledger. Each holds one advisory lock until it ends,
 reads the head in two statements, and appends; any of them may commit or abort at any point. A read
 sees its own transaction's rows and as many of the committed ones as its snapshot has, which under
 read committed is all of them and under a stricter isolation level may be fewer.
 */
module LedgerProtocol {
  import opened Wrappers
  import opened AuditHash
  import opened Ledger

  /** A transaction: what it has written and not committed, and how much of the head it has read. */
  datatype Tx = Tx(written: seq<Entry>, seqRead: Option<nat>, prevRead: Option<string>)

  datatype Sys = Sys(committed: seq<Entry>, lock: Option<nat>, txs: map<nat, Tx>)

  const EMPTY := Sys([], None, map[])

  datatype Step =
    | Begin(t: nat)
    | TakeLock(t: nat)
    | ReadSeq(t: nat, seen: nat)
    | ReadPrev(t: nat, seen: nat)
    | Append(t: nat, payload: Payload)
    | Amend(t: nat)
    | Commit(t: nat)
    | Abort(t: nat)

  /** Why an append raises: the row count that is not one, or an index that would hold twice. */
  datatype Refusal = SeqHeld | ParentHeld | DigestHeld | OwnParent

  /** The committed rows and those of transaction t. */
  function Visible(s: Sys, t: nat): seq<Entry>
    requires t in s.txs
  {
    s.committed + s.txs[t].written
  }

  /** The rows a read of transaction t sees, when its snapshot has so many of the committed ones. */
  function Seen(s: Sys, t: nat, seen: nat): seq<Entry>
    requires t in s.txs && seen <= |s.committed|
  {
    s.committed[..seen] + s.txs[t].written
  }

  /** The rows a unique index knows about: everybody's, committed or not. */
  ghost predicate InIndex(s: Sys, e: Entry) {
    e in s.committed || exists t | t in s.txs :: e in s.txs[t].written
  }

  /** Whether transaction t is at the point where the trigger appends. */
  predicate Ready(s: Sys, t: nat) {
    t in s.txs && s.lock == Some(t) && s.txs[t].seqRead.Some? && s.txs[t].prevRead.Some?
  }

  function Written(sign: Signer, s: Sys, t: nat, p: Payload): Entry
    requires Ready(s, t)
  {
    Signed(sign, Link(p, s.txs[t].seqRead.value, s.txs[t].prevRead.value))
  }

  /** The number, which the merge and the primary key both look at, and then the other constraints. */
  ghost function RefusalOf(sign: Signer, s: Sys, t: nat, p: Payload): Option<Refusal>
    requires Ready(s, t)
  {
    var e := Written(sign, s, t, p);
    if exists f :: InIndex(s, f) && f.content.seqNo == e.content.seqNo then Some(SeqHeld)
    else if e.entryHash == e.content.prevHash then Some(OwnParent)
    else if exists f :: InIndex(s, f) && f.entryHash == e.entryHash then Some(DigestHeld)
    else if exists f :: InIndex(s, f) && f.content.prevHash == e.content.prevHash then Some(ParentHeld)
    else None
  }

  /** A transaction that ends gives its lock back with everything it wrote, or without. */
  function Ended(s: Sys, t: nat, committed: seq<Entry>): Sys {
    Sys(committed, if s.lock == Some(t) then None else s.lock, s.txs - {t})
  }

  /** One statement. One that cannot run yet, or at all, leaves things as they are. */
  ghost function Take(sign: Signer, s: Sys, step: Step): Sys {
    if step.Begin? then
      if step.t in s.txs then s else s.(txs := s.txs[step.t := Tx([], None, None)])
    else if step.t !in s.txs then s
    else
      var t, tx := step.t, s.txs[step.t];
      match step
      case Begin(_) => s
      case TakeLock(_) =>
        if s.lock.Some? then s else s.(lock := Some(t))
      case ReadSeq(_, seen) =>
        if s.lock != Some(t) || seen > |s.committed| then s
        else s.(txs := s.txs[t := tx.(seqRead := Some(NextSeq(Seen(s, t, seen))))])
      case ReadPrev(_, seen) =>
        if s.lock != Some(t) || seen > |s.committed| then s
        else s.(txs := s.txs[t := tx.(prevRead := Some(LastHash(Seen(s, t, seen))))])
      case Append(_, p) =>
        if !Ready(s, t) then s
        else if RefusalOf(sign, s, t, p).Some? then Ended(s, t, s.committed)
        else s.(txs := s.txs[t := Tx(tx.written + [Written(sign, s, t, p)], None, None)])
      case Amend(_) => Ended(s, t, s.committed)
      case Commit(_) => Ended(s, t, s.committed + tx.written)
      case Abort(_) => Ended(s, t, s.committed)
  }

  ghost function Run(sign: Signer, s: Sys, steps: seq<Step>): Sys {
    if steps == [] then s else Take(sign, Run(sign, s, steps[..|steps| - 1]), steps[|steps| - 1])
  }

  // ------------------------------------------------------------ what every interleaving keeps

  ghost predicate Holds(sign: Signer, s: Sys, t: nat)
    requires t in s.txs
  {
    var tx := s.txs[t];
    && Chain(sign, Visible(s, t))
    && (tx.written != [] || tx.seqRead.Some? || tx.prevRead.Some? ==> s.lock == Some(t))
    && (tx.seqRead.Some? ==> tx.seqRead.value <= |Visible(s, t)|)
    && (tx.prevRead.Some? ==> HeadOfSome(Visible(s, t), tx.prevRead.value))
  }

  /** A digest that these rows ended in at some point, if only before the first of them. */
  ghost predicate HeadOfSome(rows: seq<Entry>, digest: string) {
    exists n: nat | n <= |rows| :: HeadAt(rows, n, digest)
  }

  predicate HeadAt(rows: seq<Entry>, n: nat, digest: string)
    requires n <= |rows|
  {
    digest == Head(rows[..n], GENESIS)
  }

  ghost predicate Sound(sign: Signer, s: Sys) {
    && Chain(sign, s.committed)
    && (s.lock.Some? ==> s.lock.value in s.txs)
    && forall t | t in s.txs :: Holds(sign, s, t)
  }

  /** Whoever does not hold the lock has written nothing and read nothing. */
  lemma WithoutTheLock(sign: Signer, s: Sys, t: nat)
    requires Sound(sign, s) && t in s.txs && s.lock != Some(t)
    ensures s.txs[t] == Tx([], None, None) && Visible(s, t) == s.committed
  {
    assert Holds(sign, s, t);
  }

  lemma HeadAtRow(chain: seq<Entry>, i: nat)
    requires i < |chain|
    ensures HeadOfSome(chain, chain[i].entryHash)
  {
    assert chain[..i + 1][i] == chain[i];
    assert HeadAt(chain, i + 1, chain[i].entryHash);
  }

  /** A row of a chain has a number the chain has passed and a digest it has ended in. */
  lemma RowOfChain(sign: Signer, chain: seq<Entry>, e: Entry)
    requires Chain(sign, chain) && e in chain
    ensures e.content.seqNo < |chain| && HeadOfSome(chain, e.entryHash)
  {
    var i :| 0 <= i < |chain| && chain[i] == e;
    NumberedInOrder(sign, chain, i);
    HeadAtRow(chain, i);
  }

  /** Whatever rows of a chain a read sees, the number it takes is one the chain has reached. */
  lemma AnyReadIsOfTheChain(sign: Signer, chain: seq<Entry>, rows: seq<Entry>)
    requires Chain(sign, chain) && forall e | e in rows :: e in chain
    ensures NextSeq(rows) <= |chain| && HeadOfSome(chain, LastHash(rows))
  {
    if rows == [] {
      assert HeadAt(chain, 0, GENESIS);
    } else {
      RowOfChain(sign, chain, Top(rows));
    }
  }

  /** Any digest but the last that a chain ended in is already some row's parent. */
  lemma AnEarlierHeadIsAParent(sign: Signer, chain: seq<Entry>, n: nat, digest: string)
    requires Chain(sign, chain) && n < |chain| && HeadAt(chain, n, digest)
    ensures chain[n] in chain && chain[n].content.prevHash == digest
  {
    ChainPrefix(sign, chain, n);
  }

  /** What the indexes let in shares its number and its parent with no row there is. */
  lemma AcceptedClashesWithNothing(sign: Signer, s: Sys, t: nat, p: Payload, f: Entry)
    requires Ready(s, t) && RefusalOf(sign, s, t, p).None? && f in Visible(s, t)
    ensures f.content.seqNo != s.txs[t].seqRead.value && f.content.prevHash != s.txs[t].prevRead.value
  {
    assert InIndex(s, f);
    var e := Written(sign, s, t, p);
    assert e.content.seqNo == s.txs[t].seqRead.value && e.content.prevHash == s.txs[t].prevRead.value;
  }

  lemma FreeNumberIsNext(sign: Signer, chain: seq<Entry>, k: nat)
    requires Chain(sign, chain) && k <= |chain| && forall f | f in chain :: f.content.seqNo != k
    ensures k == |chain|
  {
    if k < |chain| {
      NumberedInOrder(sign, chain, k);
    }
  }

  lemma FreeParentIsLast(sign: Signer, chain: seq<Entry>, digest: string)
    requires Chain(sign, chain) && HeadOfSome(chain, digest) && forall f | f in chain :: f.content.prevHash != digest
    ensures digest == Head(chain, GENESIS)
  {
    var n: nat :| n <= |chain| && HeadAt(chain, n, digest);
    if n < |chain| {
      AnEarlierHeadIsAParent(sign, chain, n, digest);
    }
    assert chain[..|chain|] == chain;
  }

  /** What the indexes let in is the next entry of the chain, however stale the head it was linked to. */
  lemma AcceptedIsNext(sign: Signer, s: Sys, t: nat, p: Payload)
    requires Sound(sign, s) && Ready(s, t) && RefusalOf(sign, s, t, p).None?
    ensures s.txs[t].seqRead == Some(|Visible(s, t)|)
    ensures s.txs[t].prevRead == Some(Head(Visible(s, t), GENESIS))
  {
    assert Holds(sign, s, t);
    forall f | f in Visible(s, t)
      ensures f.content.seqNo != s.txs[t].seqRead.value && f.content.prevHash != s.txs[t].prevRead.value
    {
      AcceptedClashesWithNothing(sign, s, t, p, f);
    }
    FreeNumberIsNext(sign, Visible(s, t), s.txs[t].seqRead.value);
    FreeParentIsLast(sign, Visible(s, t), s.txs[t].prevRead.value);
  }

  lemma HeadReadIsNext(sign: Signer, s: Sys, t: nat, p: Payload)
    requires Ready(s, t) && Chain(sign, Visible(s, t))
    requires s.txs[t].seqRead == Some(|Visible(s, t)|)
    requires s.txs[t].prevRead == Some(Head(Visible(s, t), GENESIS))
    ensures Written(sign, s, t, p) == NextEntry(sign, Visible(s, t), p)
    ensures Chain(sign, Visible(s, t) + [Written(sign, s, t, p)])
  {
    HeadOfChain(sign, Visible(s, t));
    ChainGrows(sign, Visible(s, t), p);
  }

  /** What the lock holder appends is the next entry of the chain. */
  lemma AppendedIsNext(sign: Signer, s: Sys, t: nat, p: Payload)
    requires Sound(sign, s) && Ready(s, t) && RefusalOf(sign, s, t, p).None?
    ensures Chain(sign, Visible(s, t) + [Written(sign, s, t, p)])
  {
    assert Holds(sign, s, t);
    AcceptedIsNext(sign, s, t, p);
    HeadReadIsNext(sign, s, t, p);
  }

  lemma EndedIsSound(sign: Signer, s: Sys, t: nat, committed: seq<Entry>)
    requires Sound(sign, s) && t in s.txs
    requires committed == s.committed || (s.lock == Some(t) && committed == Visible(s, t))
    ensures Sound(sign, Ended(s, t, committed))
  {
    var s' := Ended(s, t, committed);
    assert Holds(sign, s, t);
    forall u | u in s'.txs ensures Holds(sign, s', u) {
      assert Holds(sign, s, u);
      if s.lock == Some(t) {
        WithoutTheLock(sign, s, u);
        assert Visible(s', u) == committed;
      } else {
        assert Visible(s', u) == Visible(s, u);
      }
    }
  }

  /** A change of one transaction leaves every other one holding what it held. */
  lemma OthersHold(sign: Signer, s: Sys, s': Sys, t: nat)
    requires Sound(sign, s) && t in s'.txs
    requires s'.committed == s.committed && s'.lock == s.lock && (s.lock.Some? ==> s.lock.value in s'.txs)
    requires forall u | u in s'.txs && u != t :: u in s.txs && s'.txs[u] == s.txs[u]
    requires Holds(sign, s', t)
    ensures Sound(sign, s')
  {
    forall u | u in s'.txs && u != t ensures Holds(sign, s', u) {
      assert Holds(sign, s, u);
      assert Visible(s', u) == Visible(s, u);
    }
  }

  lemma CommitIsSound(sign: Signer, s: Sys, t: nat)
    requires Sound(sign, s) && t in s.txs
    ensures Sound(sign, Ended(s, t, Visible(s, t)))
  {
    if s.lock != Some(t) {
      WithoutTheLock(sign, s, t);
    }
    EndedIsSound(sign, s, t, Visible(s, t));
  }

  lemma BeginIsSound(sign: Signer, s: Sys, t: nat)
    requires Sound(sign, s) && t !in s.txs
    ensures Sound(sign, s.(txs := s.txs[t := Tx([], None, None)]))
  {
    var s' := s.(txs := s.txs[t := Tx([], None, None)]);
    assert Visible(s', t) == s.committed;
    OthersHold(sign, s, s', t);
  }

  lemma LockIsSound(sign: Signer, s: Sys, t: nat)
    requires Sound(sign, s) && t in s.txs && s.lock.None?
    ensures Sound(sign, s.(lock := Some(t)))
  {
    var s' := s.(lock := Some(t));
    forall u | u in s'.txs ensures Holds(sign, s', u) {
      WithoutTheLock(sign, s, u);
      assert Visible(s', u) == s.committed;
    }
  }

  lemma SeenIsVisible(s: Sys, t: nat, seen: nat)
    requires t in s.txs && seen <= |s.committed|
    ensures forall e | e in Seen(s, t, seen) :: e in Visible(s, t)
  {
    forall e | e in Seen(s, t, seen) ensures e in Visible(s, t) {
      if e in s.committed[..seen] {
        assert e in s.committed;
      }
    }
  }

  lemma {:induction false} ReadIsSound(sign: Signer, s: Sys, t: nat, seen: nat, seqRead: Option<nat>, prevRead: Option<string>)
    requires Sound(sign, s) && t in s.txs && s.lock == Some(t) && seen <= |s.committed|
    requires seqRead == s.txs[t].seqRead || seqRead == Some(NextSeq(Seen(s, t, seen)))
    requires prevRead == s.txs[t].prevRead || prevRead == Some(LastHash(Seen(s, t, seen)))
    ensures Sound(sign, s.(txs := s.txs[t := Tx(s.txs[t].written, seqRead, prevRead)]))
  {
    var s' := s.(txs := s.txs[t := Tx(s.txs[t].written, seqRead, prevRead)]);
    assert Holds(sign, s, t);
    SeenIsVisible(s, t, seen);
    AnyReadIsOfTheChain(sign, Visible(s, t), Seen(s, t, seen));
    assert Holds(sign, s', t) by {
      assert Visible(s', t) == Visible(s, t);
    }
    OthersHold(sign, s, s', t);
  }

  lemma MoreIsVisible(s: Sys, s': Sys, t: nat, e: Entry)
    requires t in s.txs && t in s'.txs && s'.committed == s.committed && s'.txs[t].written == s.txs[t].written + [e]
    ensures Visible(s', t) == Visible(s, t) + [e]
  {
  }

  lemma AppendIsSound(sign: Signer, s: Sys, t: nat, p: Payload)
    requires Sound(sign, s) && Ready(s, t) && RefusalOf(sign, s, t, p).None?
    ensures var tx := Tx(s.txs[t].written + [Written(sign, s, t, p)], None, None);
            Sound(sign, s.(txs := s.txs[t := tx]))
  {
    var tx := Tx(s.txs[t].written + [Written(sign, s, t, p)], None, None);
    var s' := s.(txs := s.txs[t := tx]);
    AppendedIsNext(sign, s, t, p);
    MoreIsVisible(s, s', t, Written(sign, s, t, p));
    OthersHold(sign, s, s', t);
  }

  /** No statement of any transaction disturbs the chain, whatever the others are in the middle of. */
  lemma TakeIsSound(sign: Signer, s: Sys, step: Step)
    requires Sound(sign, s)
    ensures Sound(sign, Take(sign, s, step))
    ensures s.committed <= Take(sign, s, step).committed
  {
    var t := step.t;
    if step.Begin? {
      if t !in s.txs {
        BeginIsSound(sign, s, t);
      }
    } else if t in s.txs {
      match step
      case Begin(_) =>
      case TakeLock(_) =>
        if s.lock.None? {
          LockIsSound(sign, s, t);
        }
      case ReadSeq(_, seen) =>
        if s.lock == Some(t) && seen <= |s.committed| {
          ReadIsSound(sign, s, t, seen, Some(NextSeq(Seen(s, t, seen))), s.txs[t].prevRead);
        }
      case ReadPrev(_, seen) =>
        if s.lock == Some(t) && seen <= |s.committed| {
          ReadIsSound(sign, s, t, seen, s.txs[t].seqRead, Some(LastHash(Seen(s, t, seen))));
        }
      case Append(_, p) =>
        if Ready(s, t) {
          EndedIsSound(sign, s, t, s.committed);
          if RefusalOf(sign, s, t, p).None? {
            AppendIsSound(sign, s, t, p);
          }
        }
      case Amend(_) => EndedIsSound(sign, s, t, s.committed);
      case Commit(_) => CommitIsSound(sign, s, t);
      case Abort(_) => EndedIsSound(sign, s, t, s.committed);
    }
  }

  lemma {:induction false} RunIsSound(sign: Signer, s: Sys, steps: seq<Step>)
    requires Sound(sign, s)
    ensures Sound(sign, Run(sign, s, steps))
  {
    if steps != [] {
      RunIsSound(sign, s, steps[..|steps| - 1]);
      TakeIsSound(sign, Run(sign, s, steps[..|steps| - 1]), steps[|steps| - 1]);
    }
  }

  /**
   Under every interleaving, and however stale the snapshots the head was read from, the committed
   ledger is one chain: entry i is numbered i, names the digest of entry i - 1 as its parent, and is
   signed.
   */
  lemma EveryInterleavingIsOneChain(sign: Signer, steps: seq<Step>, i: nat)
    requires i < |Run(sign, EMPTY, steps).committed|
    ensures var rows := Run(sign, EMPTY, steps).committed;
            && Chain(sign, rows)
            && rows[i].content.seqNo == i
            && rows[i].content.prevHash == (if i == 0 then GENESIS else rows[i - 1].entryHash)
            && rows[i].entryHash == sign(rows[i].content)
  {
    RunIsSound(sign, EMPTY, steps);
    ChainPrefix(sign, Run(sign, EMPTY, steps).committed, i);
  }

  /** A committed ledger is a prefix of every later one: nothing is rewritten and nothing removed. */
  lemma {:induction false} CommittedOnlyGrows(sign: Signer, steps: seq<Step>, more: seq<Step>)
    ensures Run(sign, EMPTY, steps).committed <= Run(sign, EMPTY, steps + more).committed
  {
    if more == [] {
      assert steps + more == steps;
    } else {
      var before := steps + more[..|more| - 1];
      assert (steps + more)[..|steps + more| - 1] == before;
      CommittedOnlyGrows(sign, steps, more[..|more| - 1]);
      RunIsSound(sign, EMPTY, before);
      TakeIsSound(sign, Run(sign, EMPTY, before), more[|more| - 1]);
    }
  }

  // ------------------------------------------------------------ what never fires

  lemma IndexedIsVisible(sign: Signer, s: Sys, t: nat, e: Entry)
    requires Sound(sign, s) && Ready(s, t) && InIndex(s, e)
    ensures e in Visible(s, t)
  {
    if e !in s.committed {
      var u :| u in s.txs && e in s.txs[u].written;
      if u != t {
        WithoutTheLock(sign, s, u);
      }
    }
  }

  // ------------------------------------------------------------ reads of all that is committed

  /** Whatever a transaction has read of the head is the head there is. */
  ghost predicate Current(s: Sys) {
    forall t | t in s.txs :: CurrentOf(s, t)
  }

  ghost predicate CurrentOf(s: Sys, t: nat)
    requires t in s.txs
  {
    && (s.txs[t].seqRead.Some? ==> s.txs[t].seqRead.value == |Visible(s, t)|)
    && (s.txs[t].prevRead.Some? ==> s.txs[t].prevRead.value == Head(Visible(s, t), GENESIS))
  }

  /** A step that, if it reads, reads all that is committed. */
  predicate ReadsAll(s: Sys, step: Step) {
    match step
    case ReadSeq(_, seen) => seen == |s.committed|
    case ReadPrev(_, seen) => seen == |s.committed|
    case _ => true
  }

  ghost predicate EveryReadReadsAll(sign: Signer, steps: seq<Step>) {
    steps == []
    || (&& EveryReadReadsAll(sign, steps[..|steps| - 1])
        && ReadsAll(Run(sign, EMPTY, steps[..|steps| - 1]), steps[|steps| - 1]))
  }

  lemma ReadsAreRight(sign: Signer, s: Sys, t: nat)
    requires Sound(sign, s) && t in s.txs
    ensures NextSeq(Seen(s, t, |s.committed|)) == |Visible(s, t)|
    ensures LastHash(Seen(s, t, |s.committed|)) == Head(Visible(s, t), GENESIS)
  {
    assert Holds(sign, s, t);
    assert Seen(s, t, |s.committed|) == Visible(s, t) by {
      assert s.committed[..|s.committed|] == s.committed;
    }
    HeadOfChain(sign, Visible(s, t));
  }

  /** A change of one transaction leaves every other one as current as it was. */
  lemma OthersStayCurrent(s: Sys, s': Sys, t: nat)
    requires Current(s) && s'.committed == s.committed && t in s'.txs && CurrentOf(s', t)
    requires forall u | u in s'.txs && u != t :: u in s.txs && s'.txs[u] == s.txs[u]
    ensures Current(s')
  {
    forall u | u in s'.txs && u != t ensures CurrentOf(s', u) {
      assert CurrentOf(s, u) && Visible(s', u) == Visible(s, u);
    }
  }

  /** A transaction that ends, and commits only if it holds the lock, leaves the others current. */
  lemma EndedStaysCurrent(sign: Signer, s: Sys, t: nat, committed: seq<Entry>)
    requires Sound(sign, s) && Current(s) && t in s.txs
    requires committed == s.committed || s.lock == Some(t)
    ensures Current(Ended(s, t, committed))
  {
    var s' := Ended(s, t, committed);
    forall u | u in s'.txs ensures CurrentOf(s', u) {
      assert CurrentOf(s, u);
      if committed == s.committed {
        assert Visible(s', u) == Visible(s, u);
      } else {
        WithoutTheLock(sign, s, u);
      }
    }
  }

  lemma CommitStaysCurrent(sign: Signer, s: Sys, t: nat)
    requires Sound(sign, s) && Current(s) && t in s.txs
    ensures Current(Ended(s, t, Visible(s, t)))
  {
    if s.lock != Some(t) {
      WithoutTheLock(sign, s, t);
    }
    EndedStaysCurrent(sign, s, t, Visible(s, t));
  }

  lemma ReadStaysCurrent(sign: Signer, s: Sys, t: nat, seqRead: Option<nat>, prevRead: Option<string>)
    requires Sound(sign, s) && Current(s) && t in s.txs
    requires seqRead == s.txs[t].seqRead || seqRead == Some(NextSeq(Seen(s, t, |s.committed|)))
    requires prevRead == s.txs[t].prevRead || prevRead == Some(LastHash(Seen(s, t, |s.committed|)))
    ensures Current(s.(txs := s.txs[t := Tx(s.txs[t].written, seqRead, prevRead)]))
  {
    var s' := s.(txs := s.txs[t := Tx(s.txs[t].written, seqRead, prevRead)]);
    assert CurrentOf(s, t) && Visible(s', t) == Visible(s, t);
    ReadsAreRight(sign, s, t);
    OthersStayCurrent(s, s', t);
  }

  /** A transaction that has read nothing is current. */
  lemma UnreadIsCurrent(s: Sys, t: nat, written: seq<Entry>)
    requires Current(s)
    ensures Current(s.(txs := s.txs[t := Tx(written, None, None)]))
  {
    OthersStayCurrent(s, s.(txs := s.txs[t := Tx(written, None, None)]), t);
  }

  lemma LockStaysCurrent(s: Sys, t: nat)
    requires Current(s)
    ensures Current(s.(lock := Some(t)))
  {
    forall u | u in s.txs ensures CurrentOf(s.(lock := Some(t)), u) {
      assert CurrentOf(s, u) && Visible(s.(lock := Some(t)), u) == Visible(s, u);
    }
  }

  lemma {:induction false} TakeStaysCurrent(sign: Signer, s: Sys, step: Step)
    requires Sound(sign, s) && Current(s) && ReadsAll(s, step)
    ensures Current(Take(sign, s, step))
  {
    var t := step.t;
    if step.Begin? {
      UnreadIsCurrent(s, t, []);
    } else if t in s.txs {
      match step
      case Begin(_) =>
      case TakeLock(_) => LockStaysCurrent(s, t);
      case ReadSeq(_, seen) => ReadStaysCurrent(sign, s, t, Some(NextSeq(Seen(s, t, seen))), s.txs[t].prevRead);
      case ReadPrev(_, seen) => ReadStaysCurrent(sign, s, t, s.txs[t].seqRead, Some(LastHash(Seen(s, t, seen))));
      case Append(_, p) =>
        EndedStaysCurrent(sign, s, t, s.committed);
        if Ready(s, t) {
          UnreadIsCurrent(s, t, s.txs[t].written + [Written(sign, s, t, p)]);
        }
      case Amend(_) => EndedStaysCurrent(sign, s, t, s.committed);
      case Commit(_) => CommitStaysCurrent(sign, s, t);
      case Abort(_) => EndedStaysCurrent(sign, s, t, s.committed);
    }
  }

  lemma {:induction false} RunStaysCurrent(sign: Signer, steps: seq<Step>)
    requires EveryReadReadsAll(sign, steps)
    ensures Current(Run(sign, EMPTY, steps))
  {
    if steps != [] {
      RunStaysCurrent(sign, steps[..|steps| - 1]);
      RunIsSound(sign, EMPTY, steps[..|steps| - 1]);
      TakeStaysCurrent(sign, Run(sign, EMPTY, steps[..|steps| - 1]), steps[|steps| - 1]);
    }
  }

  /** Reading all that is committed, the merge always finds its number free, so the row count is always one. */
  lemma TheNumberIsFree(sign: Signer, s: Sys, t: nat, p: Payload, e: Entry)
    requires Sound(sign, s) && Current(s) && Ready(s, t) && InIndex(s, e)
    ensures e.content.seqNo < Written(sign, s, t, p).content.seqNo
  {
    assert Holds(sign, s, t) && CurrentOf(s, t);
    IndexedIsVisible(sign, s, t, e);
    var i :| 0 <= i < |Visible(s, t)| && Visible(s, t)[i] == e;
    NumberedInOrder(sign, Visible(s, t), i);
  }

  /** In a chain whose signatures are unforged, no parent and no digest is named twice. */
  lemma {:induction false} ParentsDiffer(sign: Signer, rows: seq<Entry>, i: nat, j: nat)
    requires Chain(sign, rows) && Unforged(sign, rows, rows, GENESIS) && i < j < |rows|
    ensures rows[i].entryHash != rows[j].entryHash
    ensures rows[i].content.prevHash != rows[j].content.prevHash
  {
    SignaturesDiffer(sign, rows, i, j);
    ChainPrefix(sign, rows, i);
    ChainPrefix(sign, rows, j);
    if i > 0 {
      SignaturesDiffer(sign, rows, i - 1, j - 1);
    } else {
      ChainPrefix(sign, rows, j - 1);
      assert rows[j - 1] in rows;
    }
  }

  lemma SignaturesDiffer(sign: Signer, rows: seq<Entry>, i: nat, j: nat)
    requires Chain(sign, rows) && Unforged(sign, rows, rows, GENESIS) && i < j < |rows|
    ensures rows[i].entryHash != rows[j].entryHash
  {
    NumberedInOrder(sign, rows, i);
    NumberedInOrder(sign, rows, j);
    ChainPrefix(sign, rows, i);
    ChainPrefix(sign, rows, j);
    assert rows[i] in rows && rows[j] in rows;
    assert WithoutDetails(rows[i].content).seqNo != WithoutDetails(rows[j].content).seqNo;
  }

  /**
   Where every read reads all that is committed, no append is ever refused: not by the row count, and,
   where the digest does not collide on the entries there are, not by the unique parent, the unique
   digest or the own-parent check.
   */
  lemma NoAppendIsRefused(sign: Signer, steps: seq<Step>, t: nat, p: Payload)
    requires EveryReadReadsAll(sign, steps)
    requires var s := Run(sign, EMPTY, steps);
             && Ready(s, t)
             && (var rows := Visible(s, t) + [Written(sign, s, t, p)]; Unforged(sign, rows, rows, GENESIS))
    ensures RefusalOf(sign, Run(sign, EMPTY, steps), t, p).None?
  {
    RunIsSound(sign, EMPTY, steps);
    RunStaysCurrent(sign, steps);
    assert CurrentOf(Run(sign, EMPTY, steps), t);
    AnAppendIsAcceptedIff(sign, Run(sign, EMPTY, steps), t, p);
  }

  /**
   An append is let in exactly when both of its reads were of the head there is. A fork, a gap or a
   number used twice is refused by the unique indexes, whatever snapshot it came from.
   */
  lemma AnAppendIsAcceptedIff(sign: Signer, s: Sys, t: nat, p: Payload)
    requires Sound(sign, s) && Ready(s, t)
    requires var rows := Visible(s, t) + [Written(sign, s, t, p)]; Unforged(sign, rows, rows, GENESIS)
    ensures RefusalOf(sign, s, t, p).None? <==> CurrentOf(s, t)
  {
    if RefusalOf(sign, s, t, p).None? {
      AcceptedIsNext(sign, s, t, p);
    }
    if CurrentOf(s, t) {
      CurrentAppendIsAccepted(sign, s, t, p);
    }
  }

  lemma CurrentIsNext(sign: Signer, s: Sys, t: nat, p: Payload)
    requires Sound(sign, s) && Ready(s, t) && CurrentOf(s, t)
    ensures Chain(sign, Visible(s, t) + [Written(sign, s, t, p)])
  {
    assert Holds(sign, s, t);
    HeadReadIsNext(sign, s, t, p);
  }

  lemma CurrentAppendIsAccepted(sign: Signer, s: Sys, t: nat, p: Payload)
    requires Sound(sign, s) && Ready(s, t) && CurrentOf(s, t)
    requires var rows := Visible(s, t) + [Written(sign, s, t, p)]; Unforged(sign, rows, rows, GENESIS)
    ensures RefusalOf(sign, s, t, p).None?
  {
    var rows, e := Visible(s, t), Written(sign, s, t, p);
    CurrentIsNext(sign, s, t, p);
    NewEntryIsNotItsParent(sign, rows, e);
    forall f | f in rows || InIndex(s, f) ensures !Clashes(e, f) {
      if f !in rows {
        IndexedIsVisible(sign, s, t, f);
      }
      NewEntryIsNew(sign, rows, e, f);
    }
    ClashlessIsAccepted(sign, s, t, p);
  }

  /** Two rows the table cannot hold together. */
  predicate Clashes(e: Entry, f: Entry) {
    || f.content.seqNo == e.content.seqNo
    || f.entryHash == e.entryHash
    || f.content.prevHash == e.content.prevHash
  }

  lemma ClashlessIsAccepted(sign: Signer, s: Sys, t: nat, p: Payload)
    requires Ready(s, t)
    requires var e := Written(sign, s, t, p);
             && e.entryHash != e.content.prevHash
             && forall f | f in Visible(s, t) || InIndex(s, f) :: !Clashes(e, f)
    ensures RefusalOf(sign, s, t, p).None?
  {
  }

  lemma NewEntryIsNew(sign: Signer, rows: seq<Entry>, e: Entry, f: Entry)
    requires Chain(sign, rows + [e]) && Unforged(sign, rows + [e], rows + [e], GENESIS) && f in rows
    ensures f.content.seqNo != e.content.seqNo
    ensures f.entryHash != e.entryHash && f.content.prevHash != e.content.prevHash
  {
    var i :| 0 <= i < |rows| && rows[i] == f;
    assert (rows + [e])[i] == f && (rows + [e])[|rows|] == e;
    NumberedInOrder(sign, rows + [e], i);
    NumberedInOrder(sign, rows + [e], |rows|);
    ParentsDiffer(sign, rows + [e], i, |rows|);
  }

  lemma NewEntryIsNotItsParent(sign: Signer, rows: seq<Entry>, e: Entry)
    requires Chain(sign, rows + [e]) && Unforged(sign, rows + [e], rows + [e], GENESIS)
    ensures e.entryHash != e.content.prevHash
  {
    assert (rows + [e])[..|rows|] == rows && e in rows + [e];
    if rows != [] {
      NewEntryIsNew(sign, rows, e, rows[|rows| - 1]);
    }
  }

  /**
   Without the lock's protection of the reads: an entry linked to anything but the last entry
   names a parent and a number the ledger already holds, so the unique indexes refuse it.
   */
  lemma AStaleHeadIsAFork(sign: Signer, rows: seq<Entry>, n: nat, p: Payload)
    requires Chain(sign, rows) && n < |rows|
    ensures var e := NextEntry(sign, rows[..n], p);
            rows[n].content.seqNo == e.content.seqNo && rows[n].content.prevHash == e.content.prevHash
  {
    ChainPrefix(sign, rows, n);
    HeadOfChain(sign, rows[..n]);
  }
}
